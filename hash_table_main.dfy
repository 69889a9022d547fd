/** The hash table demonstration: three elements put into a table of
    capacity 5, one looked up, one updated, one removed, and five more put,
    which triggers one rehash. */
module HashTableMain {
  import opened Java
  import opened HashTable

  /** 5 and 11 are prime, 10 is not. */
  lemma SmallPrimes()
    ensures Prime(5) && Prime(11) && !Prime(10)
  {
    assert 10 % 2 == 0;
    forall d | 2 <= d < 11
      ensures 11 % d != 0
    {
      assert d == 2 || d == 3 || d == 4 || d == 5 || d == 6 || d == 7 || d == 8 || d == 9 || d == 10;
    }
    forall d | 2 <= d < 5
      ensures 5 % d != 0
    {
      assert d == 2 || d == 3 || d == 4;
    }
  }

  /** The first phase: Hydrogen, Helium and Lithium put, Helium looked up
      and updated, Lithium removed. */
  method FirstPhase(t: HashTable<real>) returns (heliumWeight: Option<real>)
    requires t.Valid() && t.content == map[] && t.bucketArray.Length == 5
    modifies t, t.bucketArray
    ensures t.Valid() && t.bucketArray == old(t.bucketArray)
    ensures t.content.Keys == {"Hydrogen", "Helium"}
    ensures heliumWeight == Some(4.0026)
  {
    t.Put("Hydrogen", 1.008);
    t.Put("Helium", 4.0026);
    t.Put("Lithium", 6.94);
    heliumWeight := t.Get("Helium");
    t.Put("Helium", 4.002602);
    var removed := t.Remove("Lithium");
  }

  /** The second phase: Beryllium fits, Boron would bring the load factor to
      0.8, so the table is rehashed into 11 buckets first. */
  method SecondPhase(t: HashTable<real>)
    requires t.Valid() && t.content.Keys == {"Hydrogen", "Helium"} && t.bucketArray.Length == 5
    requires Prime(11) && !Prime(10)
    modifies t, t.bucketArray
    ensures t.Valid() && fresh(t.bucketArray) && t.bucketArray.Length == 11
    ensures t.content.Keys == {"Hydrogen", "Helium", "Beryllium", "Boron"}
  {
    t.Put("Beryllium", 9.0122);
    assert |t.content| == 3;
    t.Put("Boron", 10.81);
  }

  /** The third phase: Carbon, Nitrogen and Oxygen fit without a rehash. */
  method ThirdPhase(t: HashTable<real>)
    requires t.Valid() && t.content.Keys == {"Hydrogen", "Helium", "Beryllium", "Boron"}
    requires t.bucketArray.Length == 11
    modifies t, t.bucketArray
    ensures t.Valid() && t.bucketArray.Length == 11 && |t.content| == 7
  {
    t.Put("Carbon", 12.011);
    assert |t.content| == 5;
    t.Put("Nitrogen", 14.007);
    assert |t.content| == 6;
    t.Put("Oxygen", 15.999);
    assert t.content.Keys == {"Hydrogen", "Helium", "Beryllium", "Boron", "Carbon", "Nitrogen", "Oxygen"};
  }

  /** `main` of `HashTableMain`, returning what it looks up and the final
      bucket and entry counts instead of printing them. */
  method Demo() returns (heliumWeight: Option<real>, buckets: int, entries: int)
    ensures heliumWeight == Some(4.0026)
    ensures buckets == 11 && entries == 7
  {
    SmallPrimes();
    var t := new HashTable<real>(5);
    heliumWeight := FirstPhase(t);
    SecondPhase(t);
    ThirdPhase(t);
    buckets := t.bucketArray.Length;
    entries := t.Size();
  }
}
