/** A string-keyed hash table with separate chaining, a prime bucket count
    and the Division hash, rehashed into about twice as many buckets before
    the load factor would reach 0.75. Bucket chains are modelled as
    sequences of entries, head first. */
module HashTable {
  import opened Java

  /** `n` is prime: above 1 with no divisor strictly between 1 and `n`. */
  ghost predicate Prime(n: int)
  {
    n > 1 && forall d :: 2 <= d < n ==> n % d != 0
  }

  /** `p` is the least prime at or above `start`. */
  ghost predicate LeastPrimeFrom(start: int, p: int)
  {
    start <= p && Prime(p) && forall q :: start <= q < p ==> !Prime(q)
  }

  /** A multiple of `b` strictly between `-b` and `b` is zero. */
  lemma ZeroFactor(b: int, x: int, y: int)
    requires b > 0 && b * x == y && -b < y < b
    ensures x == 0
  {
  }

  /** Multiplying by a non-negative factor keeps order. */
  lemma MulMono(a: int, b: int, c: int)
    requires a >= b && c >= 0
    ensures a * c >= b * c
  {
  }

  /** Euclidean division is unique. */
  lemma ModUnique(a: int, b: int, q: int, r: int)
    requires b > 0 && 0 <= r < b && a == b * q + r
    ensures a % b == r && a / b == q
  {
    ZeroFactor(b, a / b - q, r - a % b);
  }

  /** A divisor `d >= i` of `n < i * i` has its cofactor `n / d` in
      `[2, i)`, and that cofactor divides `n` too. */
  lemma Cofactor(n: int, d: int, i: int)
    requires 2 <= i <= d < n && i * i > n
    ensures n % d == 0 ==> 2 <= n / d < i && n % (n / d) == 0
  {
    if n % d == 0 {
      var e := n / d;
      assert d * e == n;
      MulMono(d, i, i);
      assert d * e < d * i;
      assert d * e > d * 1;
      ModUnique(n, e, d, 0);
    }
  }

  /** If no `d` in `[2, i)` divides `n` and `i * i > n`, then `n` is prime. */
  lemma NoSmallDivisor(n: int, i: int)
    requires n > 1 && i >= 2 && i * i > n
    requires forall d :: 2 <= d < i ==> n % d != 0
    ensures Prime(n)
  {
    forall d | 2 <= d < n
      ensures n % d != 0
    {
      if d >= i {
        Cofactor(n, d, i);
      }
    }
  }

  /** `isPrime`: trial division by `2, 3, ...` while the square of the
      divisor is at most `number`. */
  method IsPrime(number: int) returns (b: bool)
    ensures b <==> Prime(number)
  {
    if number <= 1 {
      return false;
    }
    var i := 2;
    while i * i <= number
      invariant 2 <= i
      invariant forall d :: 2 <= d < i ==> number % d != 0
      decreases number - i
    {
      MulMono(i, 2, i);
      if number % i == 0 {
        assert 2 <= i < number;
        return false;
      }
      i := i + 1;
    }
    NoSmallDivisor(number, i);
    return true;
  }

  /** Below `46340 * 46340` every square the loop of `isPrime` computes
      (at `i == 2`, or at an `i` whose predecessor passed the test) fits in
      an `int`, so there the Java loop runs as `IsPrime` does. */
  lemma SquareFits(number: int, i: int)
    requires number < 46340 * 46340
    requires i == 2 || (2 <= i && (i - 1) * (i - 1) <= number)
    ensures 0 <= i * i <= INT_MAX
  {
    if i > 46340 {
      MulMono(i - 1, 46340, i - 1);
      MulMono(i - 1, 46340, 46340);
      assert false;
    } else {
      MulMono(46340, i, i);
      MulMono(46340, i, 46340);
    }
  }

  /** `n!`. */
  function Factorial(n: nat): (r: nat)
    ensures r >= 1
  {
    if n == 0 then 1 else n * Factorial(n - 1)
  }

  /** Every `d` in `[1, n]` divides `n!`. */
  lemma {:induction false} FactorialDivisible(n: nat, d: int)
    requires 1 <= d <= n
    ensures Factorial(n) % d == 0
  {
    if d == n {
      ModUnique(Factorial(n), d, Factorial(n - 1), 0);
    } else {
      FactorialDivisible(n - 1, d);
      var q := Factorial(n - 1) / d;
      assert Factorial(n - 1) == d * q;
      assert Factorial(n) == d * (n * q);
      ModUnique(Factorial(n), d, n * q, 0);
    }
  }

  /** The least divisor of `m` at or above `d`. */
  function LeastDivisorFrom(m: int, d: int): (r: int)
    requires 2 <= d <= m
    ensures d <= r <= m && m % r == 0
    ensures forall e :: d <= e < r ==> m % e != 0
    decreases m - d
  {
    if m % d == 0 then d else LeastDivisorFrom(m, d + 1)
  }

  /** The least divisor above 1 of `m >= 2` is prime. */
  lemma LeastDivisorPrime(m: int)
    requires m >= 2
    ensures Prime(LeastDivisorFrom(m, 2))
  {
    var r := LeastDivisorFrom(m, 2);
    forall e | 2 <= e < r
      ensures r % e != 0
    {
      if r % e == 0 {
        var a, b := r / e, m / r;
        assert r == e * a && m == r * b;
        assert m == e * (a * b);
        ModUnique(m, e, a * b, 0);
      }
    }
  }

  /** There is a prime at or above any bound (Euclid): the least divisor of
      `s! + 1` exceeds `s`. */
  lemma PrimeAtLeast(s: int) returns (p: int)
    ensures Prime(p) && p >= s
  {
    var n := if s < 2 then 2 else s;
    var m := Factorial(n) + 1;
    p := LeastDivisorFrom(m, 2);
    LeastDivisorPrime(m);
    if p <= n {
      FactorialDivisible(n, p);
      var q := Factorial(n) / p;
      assert m == p * q + 1;
      ModUnique(m, p, q, 1);
    }
  }

  /** `nextPrime`: counts up from `start` until `isPrime` holds. */
  method NextPrime(start: int) returns (p: int)
    ensures LeastPrimeFrom(start, p)
  {
    ghost var bound := PrimeAtLeast(start);
    var n := start;
    while true
      invariant start <= n <= bound
      invariant forall q :: start <= q < n ==> !Prime(q)
      decreases bound - n
    {
      var b := IsPrime(n);
      if b {
        return n;
      }
      n := n + 1;
    }
  }

  /** Java's 32-bit two's-complement wrap-around of an integer. */
  function Wrap32(x: int): (r: int)
    ensures IsInt(r)
    ensures IsInt(x) ==> r == x
  {
    (x - INT_MIN) % 0x1_0000_0000 + INT_MIN
  }

  /** `String.hashCode`: `h = 31 * h + c` over the characters from the
      first, in 32-bit arithmetic, each character taken as its code point. */
  function HashCode(s: string): (h: int)
    ensures IsInt(h)
  {
    HashFrom(0, s)
  }

  /** The hash accumulation continued from `h` over the characters of `s`. */
  function HashFrom(h: int, s: string): (r: int)
    requires IsInt(h)
    ensures IsInt(r)
    decreases s
  {
    if s == [] then h else HashFrom(Wrap32(31 * h + s[0] as int), s[1..])
  }

  /** `Math.abs` on ints: `Integer.MIN_VALUE` has no positive counterpart and
      is returned unchanged. */
  function JavaAbs(x: int): int
    requires IsInt(x)
  {
    if x == INT_MIN then INT_MIN else if x < 0 then -x else x
  }

  /** Java's `%`, which truncates towards zero: the remainder takes the sign
      of the dividend. */
  function JavaRem(x: int, n: int): (r: int)
    requires n > 0
    ensures x >= 0 ==> r == x % n
  {
    if x >= 0 then x % n else -((-x) % n)
  }

  /** The Division hash as the source writes it,
      `Math.abs(key.hashCode()) % bucketArray.length`. */
  function DivisionHashAsWritten(key: string, n: int): int
    requires n > 0
  {
    JavaRem(JavaAbs(HashCode(key)), n)
  }

  /** The Division hash as intended: the true absolute value of the hash
      code, reduced modulo the bucket count, always a valid bucket. */
  function DivisionHash(key: string, n: int): (i: int)
    requires n > 0
    ensures 0 <= i < n
  {
    var h := HashCode(key);
    (if h < 0 then -h else h) % n
  }

  /** The two agree on every key whose hash code is not `Integer.MIN_VALUE`. */
  lemma DivisionHashAgrees(key: string, n: int)
    requires n > 0 && HashCode(key) != INT_MIN
    ensures DivisionHashAsWritten(key, n) == DivisionHash(key, n)
  {
  }

  /** One step of the accumulation over the suffix of `w` from `i`. */
  lemma HashSuffix(w: string, i: nat, h: int, v: int)
    requires i < |w| && IsInt(h) && Wrap32(31 * h + w[i] as int) == v
    ensures HashFrom(h, w[i..]) == HashFrom(v, w[i + 1..])
  {
    assert w[i..][1..] == w[i + 1..];
  }

  /** A string spelling `polygenelubricants` hashes to `Integer.MIN_VALUE`. */
  lemma MinHashCodeSpelled(w: string)
    requires |w| == 18
    requires w[0] == 'p' && w[1] == 'o' && w[2] == 'l' && w[3] == 'y' && w[4] == 'g' && w[5] == 'e' && w[6] == 'n' && w[7] == 'e' && w[8] == 'l' && w[9] == 'u' && w[10] == 'b' && w[11] == 'r' && w[12] == 'i' && w[13] == 'c' && w[14] == 'a' && w[15] == 'n' && w[16] == 't' && w[17] == 's'
    ensures HashCode(w) == INT_MIN
  {
    assert w[0..] == w;
    HashSuffix(w, 0, 0, 112);
    HashSuffix(w, 1, 112, 3583);
    HashSuffix(w, 2, 3583, 111181);
    HashSuffix(w, 3, 111181, 3446732);
    HashSuffix(w, 4, 3446732, 106848795);
    HashSuffix(w, 5, 106848795, -982654550);
    HashSuffix(w, 6, -982654550, -397519868);
    HashSuffix(w, 7, -397519868, 561786081);
    HashSuffix(w, 8, 561786081, 235499435);
    HashSuffix(w, 9, 235499435, -1289451990);
    HashSuffix(w, 10, -1289451990, -1318305928);
    HashSuffix(w, 11, -1318305928, 2082189306);
    HashSuffix(w, 12, 2082189306, 123359151);
    HashSuffix(w, 13, 123359151, -470833516);
    HashSuffix(w, 14, -470833516, -1710937011);
    HashSuffix(w, 15, -1710937011, -1499439679);
    HashSuffix(w, 16, -1499439679, 762010323);
    HashSuffix(w, 17, 762010323, -2147483648);
    assert w[18..] == [];
  }

  /** A hash code of `Integer.MIN_VALUE`, as the key `"polygenelubricants"`
      has, gives a negative index in a table of 5 buckets. */
  lemma MinHashCodeIndex()
    ensures HashCode("polygenelubricants") == INT_MIN
    ensures DivisionHashAsWritten("polygenelubricants", 5) == -3
  {
    MinHashCodeSpelled("polygenelubricants");
  }

  /** A key-value pair of a bucket's chain. */
  datatype Entry<V> = Entry(key: string, value: V)

  /** The position of the first entry for `key` in `chain`, or `|chain|` when
      there is none. */
  function KeyIndex<V>(chain: seq<Entry<V>>, key: string): (j: nat)
    ensures j <= |chain|
    ensures j < |chain| ==> chain[j].key == key
    ensures forall i :: 0 <= i < j ==> chain[i].key != key
  {
    if chain == [] then 0
    else if chain[0].key == key then 0
    else 1 + KeyIndex(chain[1..], key)
  }

  /** No key occurs twice in `chain`. */
  ghost predicate DistinctKeys<V>(chain: seq<Entry<V>>)
  {
    forall i, j :: 0 <= i < j < |chain| ==> chain[i].key != chain[j].key
  }

  /** Entry `j` of bucket `i` is a mapping of `m` and sits in the bucket its
      key hashes to. */
  ghost predicate Placed<V>(chains: seq<seq<Entry<V>>>, m: map<string, V>, i: int, j: int)
    requires 0 <= i < |chains| && 0 <= j < |chains[i]|
  {
    var e := chains[i][j];
    DivisionHash(e.key, |chains|) == i && e.key in m && m[e.key] == e.value
  }

  /** The buckets `chains` store exactly the mappings of `m`: every entry is a
      mapping of `m` in the bucket of its key, no bucket repeats a key, and
      every key of `m` has an entry in its bucket. */
  ghost predicate Table<V>(chains: seq<seq<Entry<V>>>, m: map<string, V>)
  {
    |chains| >= 1 &&
    (forall i {:trigger DistinctKeys(chains[i])} :: 0 <= i < |chains| ==> DistinctKeys(chains[i])) &&
    (forall i, j :: 0 <= i < |chains| && 0 <= j < |chains[i]| ==> Placed(chains, m, i, j)) &&
    (forall k {:trigger Stored(chains, k)} :: k in m ==> Stored(chains, k))
  }

  /** The bucket of `k` holds an entry for it. */
  ghost predicate Stored<V>(chains: seq<seq<Entry<V>>>, k: string)
    requires |chains| >= 1
  {
    var c := chains[DivisionHash(k, |chains|)];
    KeyIndex(c, k) < |c|
  }

  /** In a table, the bucket of `key` finds exactly the mapping of `m`. */
  lemma TableLookup<V>(chains: seq<seq<Entry<V>>>, m: map<string, V>, key: string)
    requires Table(chains, m)
    ensures var c := chains[DivisionHash(key, |chains|)];
            var j := KeyIndex(c, key);
            (j < |c| <==> key in m) && (j < |c| ==> c[j].value == m[key])
  {
    var i := DivisionHash(key, |chains|);
    var j := KeyIndex(chains[i], key);
    if j < |chains[i]| {
      assert Placed(chains, m, i, j);
    }
    if key in m {
      assert Stored(chains, key);
    }
  }

  /** The first entry for a key is its only one. */
  lemma KeyIndexOf<V>(chain: seq<Entry<V>>, j: int)
    requires DistinctKeys(chain) && 0 <= j < |chain|
    ensures KeyIndex(chain, chain[j].key) == j
  {
  }

  /** Prepending an entry for an absent key keeps the keys distinct and
      shifts every other key one place on. */
  lemma PrependKeys<V>(chain: seq<Entry<V>>, e: Entry<V>, k: string)
    requires DistinctKeys(chain) && KeyIndex(chain, e.key) == |chain|
    ensures DistinctKeys([e] + chain)
    ensures KeyIndex([e] + chain, k) == if k == e.key then 0 else 1 + KeyIndex(chain, k)
  {
    assert ([e] + chain)[1..] == chain;
  }

  /** Replacing entry `j` by one with the same key moves no key. */
  lemma {:induction false} KeyIndexSame<V>(chain: seq<Entry<V>>, j: int, e: Entry<V>, k: string)
    requires 0 <= j < |chain| && chain[j].key == e.key
    ensures KeyIndex(chain[j := e], k) == KeyIndex(chain, k)
  {
    if chain[0].key != k && j > 0 {
      assert chain[j := e][1..] == chain[1..][j - 1 := e];
      KeyIndexSame(chain[1..], j - 1, e, k);
    }
  }

  /** Replacing entry `j` by one with the same key keeps the keys distinct
      and moves no key. */
  lemma UpdateKeys<V>(chain: seq<Entry<V>>, j: int, e: Entry<V>, k: string)
    requires DistinctKeys(chain) && 0 <= j < |chain| && chain[j].key == e.key
    ensures DistinctKeys(chain[j := e])
    ensures KeyIndex(chain[j := e], k) == KeyIndex(chain, k)
  {
    KeyIndexSame(chain, j, e, k);
    var c := chain[j := e];
    forall x, y | 0 <= x < y < |c|
      ensures c[x].key != c[y].key
    {
      assert c[x].key == chain[x].key && c[y].key == chain[y].key;
    }
  }

  /** `chain` without its entry at `j`. */
  function RemoveEntry<V>(chain: seq<Entry<V>>, j: int): (r: seq<Entry<V>>)
    requires 0 <= j < |chain|
    ensures |r| == |chain| - 1
    ensures forall x :: 0 <= x < |r| ==> r[x] == if x < j then chain[x] else chain[x + 1]
  {
    chain[..j] + chain[j + 1..]
  }

  /** Removing entry `j` keeps the keys distinct, drops its key and leaves
      every other key of the chain in it. */
  lemma RemoveEntryKeys<V>(chain: seq<Entry<V>>, j: int, k: string)
    requires DistinctKeys(chain) && 0 <= j < |chain|
    ensures DistinctKeys(RemoveEntry(chain, j))
    ensures forall x :: 0 <= x < |chain| - 1 ==> RemoveEntry(chain, j)[x].key != chain[j].key
    ensures k != chain[j].key && KeyIndex(chain, k) < |chain| ==>
            KeyIndex(RemoveEntry(chain, j), k) < |chain| - 1
  {
    var c := RemoveEntry(chain, j);
    var y := KeyIndex(chain, k);
    if k != chain[j].key && y < |chain| {
      var x := if y < j then y else y - 1;
      assert c[x].key == k;
    }
  }

  /** Prepending an entry for a key absent from `m` stores `m[key := value]`. */
  lemma TableInsert<V>(chains: seq<seq<Entry<V>>>, m: map<string, V>, key: string, value: V)
    requires Table(chains, m) && key !in m
    ensures var i := DivisionHash(key, |chains|);
            Table(chains[i := [Entry(key, value)] + chains[i]], m[key := value])
  {
    var n := |chains|;
    var i := DivisionHash(key, n);
    var e := Entry(key, value);
    var c := [e] + chains[i];
    var chains' := chains[i := c];
    var m' := m[key := value];
    TableLookup(chains, m, key);
    assert DistinctKeys(chains[i]);
    PrependKeys(chains[i], e, key);
    forall b | 0 <= b < n
      ensures DistinctKeys(chains'[b])
    {
      assert DistinctKeys(chains[b]);
    }
    forall b, j | 0 <= b < n && 0 <= j < |chains'[b]|
      ensures Placed(chains', m', b, j)
    {
      if b == i && j > 0 {
        assert Placed(chains, m, i, j - 1);
      } else if b != i {
        assert Placed(chains, m, b, j);
      }
    }
    forall k | k in m'
      ensures Stored(chains', k)
    {
      if k != key {
        assert Stored(chains, k);
        PrependKeys(chains[i], e, k);
      }
    }
  }

  /** Overwriting the entry for a key of `m` stores `m[key := value]`. */
  lemma TableUpdate<V>(chains: seq<seq<Entry<V>>>, m: map<string, V>, key: string, value: V)
    requires Table(chains, m) && key in m
    ensures var i := DivisionHash(key, |chains|);
            var j := KeyIndex(chains[i], key);
            j < |chains[i]| &&
            Table(chains[i := chains[i][j := Entry(key, value)]], m[key := value])
  {
    var n := |chains|;
    var i := DivisionHash(key, n);
    TableLookup(chains, m, key);
    var j := KeyIndex(chains[i], key);
    var e := Entry(key, value);
    var c := chains[i][j := e];
    var chains' := chains[i := c];
    var m' := m[key := value];
    assert DistinctKeys(chains[i]);
    UpdateKeys(chains[i], j, e, key);
    forall b | 0 <= b < n
      ensures DistinctKeys(chains'[b])
    {
      assert DistinctKeys(chains[b]);
    }
    forall b, x | 0 <= b < n && 0 <= x < |chains'[b]|
      ensures Placed(chains', m', b, x)
    {
      assert Placed(chains, m, b, x);
    }
    forall k | k in m'
      ensures Stored(chains', k)
    {
      assert Stored(chains, k);
      UpdateKeys(chains[i], j, e, k);
    }
  }

  /** Removing the entry for a key of `m` stores `m - {key}`. */
  lemma TableRemove<V>(chains: seq<seq<Entry<V>>>, m: map<string, V>, key: string)
    requires Table(chains, m) && key in m
    ensures var i := DivisionHash(key, |chains|);
            var j := KeyIndex(chains[i], key);
            j < |chains[i]| && Table(chains[i := RemoveEntry(chains[i], j)], m - {key})
  {
    var n := |chains|;
    var i := DivisionHash(key, n);
    TableLookup(chains, m, key);
    var j := KeyIndex(chains[i], key);
    var c := RemoveEntry(chains[i], j);
    var chains' := chains[i := c];
    var m' := m - {key};
    assert DistinctKeys(chains[i]);
    RemoveEntryKeys(chains[i], j, key);
    forall b | 0 <= b < n
      ensures DistinctKeys(chains'[b])
    {
      assert DistinctKeys(chains[b]);
    }
    forall b, x | 0 <= b < n && 0 <= x < |chains'[b]|
      ensures Placed(chains', m', b, x)
    {
      if b == i {
        var y := if x < j then x else x + 1;
        assert Placed(chains, m, i, y);
      } else {
        assert Placed(chains, m, b, x);
      }
    }
    forall k | k in m'
      ensures Stored(chains', k)
    {
      assert Stored(chains, k);
      RemoveEntryKeys(chains[i], j, k);
    }
  }

  /** An array of empty buckets stores nothing. */
  lemma EmptyTable<V>(chains: seq<seq<Entry<V>>>)
    requires |chains| >= 1 && forall i :: 0 <= i < |chains| ==> chains[i] == []
    ensures Table(chains, map[])
  {
  }

  /** A proper subset is smaller. */
  lemma SubsetSmaller<K>(a: set<K>, b: set<K>)
    requires a < b
    ensures |a| < |b|
  {
    assert b == a + (b - a);
  }

  /** Key `k` of `m` comes before entry `j` of bucket `i` in the order the
      rehash visits them: bucket by bucket, each chain from its head. */
  ghost predicate Before<V>(chains: seq<seq<Entry<V>>>, k: string, i: int, j: int)
    requires |chains| >= 1
  {
    var b := DivisionHash(k, |chains|);
    b < i || (b == i && KeyIndex(chains[b], k) < j)
  }

  /** The rehash has re-put, with their values, exactly the mappings of `m`
      whose entries come before entry `j` of bucket `i` of `chains`. */
  ghost predicate Moved<V>(chains: seq<seq<Entry<V>>>, m: map<string, V>, done: map<string, V>, i: int, j: int)
    requires |chains| >= 1
  {
    0 <= i <= |chains| && (i < |chains| ==> 0 <= j <= |chains[i]|) &&
    (forall k :: k in done ==> k in m && done[k] == m[k]) &&
    (forall k :: k in m ==> (k in done <==> Before(chains, k, i, j)))
  }

  /** Nothing is moved at the start. */
  lemma MovedStart<V>(chains: seq<seq<Entry<V>>>, m: map<string, V>)
    requires Table(chains, m)
    ensures Moved(chains, m, map[], 0, 0)
  {
  }

  /** Re-putting entry `j` of bucket `i` adds a key not yet moved, so fewer
      than all mappings are moved before it. */
  lemma MovedStep<V>(chains: seq<seq<Entry<V>>>, m: map<string, V>, done: map<string, V>, i: int, j: int)
    requires Table(chains, m) && Moved(chains, m, done, i, j)
    requires i < |chains| && j < |chains[i]|
    ensures var e := chains[i][j];
            e.key in m && e.key !in done && |done| < |m| &&
            Moved(chains, m, done[e.key := e.value], i, j + 1)
  {
    var e := chains[i][j];
    assert Placed(chains, m, i, j);
    KeyIndexOf(chains[i], j);
    SubsetSmaller(done.Keys, m.Keys);
    var done' := done[e.key := e.value];
    forall k | k in m
      ensures k in done' <==> Before(chains, k, i, j + 1)
    {
      if DivisionHash(k, |chains|) == i && KeyIndex(chains[i], k) == j {
        assert k == e.key;
      }
    }
  }

  /** A finished bucket moves on to the next. */
  lemma MovedRow<V>(chains: seq<seq<Entry<V>>>, m: map<string, V>, done: map<string, V>, i: int)
    requires Table(chains, m) && 0 <= i < |chains| && Moved(chains, m, done, i, |chains[i]|)
    ensures Moved(chains, m, done, i + 1, 0)
  {
    forall k | k in m
      ensures k in done <==> Before(chains, k, i + 1, 0)
    {
      assert Stored(chains, k);
    }
  }

  /** Once every bucket is done, every mapping is moved. */
  lemma MovedAll<V>(chains: seq<seq<Entry<V>>>, m: map<string, V>, done: map<string, V>)
    requires Table(chains, m) && Moved(chains, m, done, |chains|, 0)
    ensures done == m
  {
    assert done.Keys == m.Keys;
  }

  /** `find` of `HashTableBucket`: the position of the entry for `key`, or
      the chain's length (the source's `null`) when there is none. */
  method Find<V>(chain: seq<Entry<V>>, key: string) returns (j: int)
    ensures j == KeyIndex(chain, key)
  {
    j := 0;
    while j < |chain| && chain[j].key != key
      invariant 0 <= j <= |chain|
      invariant forall i :: 0 <= i < j ==> chain[i].key != key
    {
      j := j + 1;
    }
  }

  /** `delete` of `HashTableBucket`: unlinks the first entry for `key` and
      reports whether there was one. */
  method Delete<V>(chain: seq<Entry<V>>, key: string) returns (found: bool, rest: seq<Entry<V>>)
    ensures found <==> KeyIndex(chain, key) < |chain|
    ensures rest == if found then RemoveEntry(chain, KeyIndex(chain, key)) else chain
  {
    var j := 0;
    while j < |chain|
      invariant 0 <= j <= |chain|
      invariant forall i :: 0 <= i < j ==> chain[i].key != key
    {
      if chain[j].key == key {
        return true, chain[..j] + chain[j + 1..];
      }
      j := j + 1;
    }
    return false, chain;
  }

  /** A string-keyed hash table with separate chaining and the Division hash. */
  class HashTable<V> {
    var bucketArray: array<seq<Entry<V>>>
    var size: int
    /** The mappings the table stores. */
    ghost var content: map<string, V>

    /** The bucket count is prime, the buckets store `content`, `size` counts
        its keys and the load factor stays below 0.75. */
    ghost predicate Valid()
      reads this, bucketArray
    {
      Prime(bucketArray.Length) && Table(bucketArray[..], content) &&
      size == |content| && 4 * size < 3 * bucketArray.Length
    }

    /** The constructor once its argument check has passed: an empty table
        whose bucket count is the least prime at or above `capacity`. */
    constructor (capacity: int)
      requires capacity >= 1
      ensures Valid() && fresh(bucketArray) && content == map[]
      ensures LeastPrimeFrom(capacity, bucketArray.Length)
    {
      var prime := IsPrime(capacity);
      var c := capacity;
      if !prime {
        c := NextPrime(capacity);
      }
      bucketArray := new seq<Entry<V>>[c](_ => []);
      size := 0;
      content := map[];
      new;
      EmptyTable(bucketArray[..]);
    }

    /** Writes bucket `index`, changing no other. */
    method SetBucket(index: int, chain: seq<Entry<V>>)
      requires 0 <= index < bucketArray.Length
      modifies bucketArray
      ensures bucketArray[..] == old(bucketArray[..])[index := chain]
    {
      bucketArray[index] := chain;
    }

    /** `hash` with the Division function type. */
    function Hash(key: string): (i: int)
      reads this
      requires bucketArray.Length > 0
      ensures 0 <= i < bucketArray.Length
    {
      DivisionHash(key, bucketArray.Length)
    }

    /** `size()`. */
    function Size(): (n: int)
      reads this, bucketArray
      requires Valid()
      ensures n == |content|
    {
      size
    }

    /** `get`: the value stored for `key`, or `null` when there is none. */
    method Get(key: string) returns (r: Option<V>)
      requires Valid()
      ensures r == if key in content then Some(content[key]) else None
    {
      var index := Hash(key);
      TableLookup(bucketArray[..], content, key);
      var j := Find(bucketArray[index], key);
      return if j < |bucketArray[index]| then Some(bucketArray[index][j].value) else None;
    }

    /** `put`: overwrites the value of a stored key in place; a new key is
        prepended to its bucket after a rehash if one more entry would bring
        the load factor to 0.75. */
    method Put(key: string, value: V)
      requires Valid()
      modifies this, bucketArray
      ensures Valid() && (bucketArray == old(bucketArray) || fresh(bucketArray))
      ensures content == old(content)[key := value]
      ensures if key in old(content) || 4 * (old(size) + 1) < 3 * old(bucketArray.Length)
              then bucketArray == old(bucketArray)
              else LeastPrimeFrom(2 * old(bucketArray.Length), bucketArray.Length)
      decreases if 4 * (size + 1) >= 3 * bucketArray.Length then 1 else 0, 1
    {
      var index := Hash(key);
      ghost var before := bucketArray[..];
      var j := Find(bucketArray[index], key);
      TableLookup(before, content, key);
      if j < |bucketArray[index]| {
        TableUpdate(before, content, key, value);
        SetBucket(index, bucketArray[index][j := Entry(key, value)]);
        content := content[key := value];
      } else {
        if 4 * (size + 1) >= 3 * bucketArray.Length {
          Rehash();
          index := Hash(key);
        }
        TableInsert(bucketArray[..], content, key, value);
        SetBucket(index, [Entry(key, value)] + bucketArray[index]);
        size := size + 1;
        content := content[key := value];
      }
    }

    /** `rehash`: re-puts every entry, bucket by bucket and each chain from
        its head, into a fresh array of `nextPrime(2 * length)` buckets. */
    method Rehash()
      requires Valid()
      modifies this
      ensures Valid() && fresh(bucketArray)
      ensures content == old(content) && size == old(size)
      ensures LeastPrimeFrom(2 * old(bucketArray.Length), bucketArray.Length)
      decreases 0, 3
    {
      var oldTable := bucketArray;
      ghost var chains := oldTable[..];
      ghost var m := content;
      var newCapacity := NextPrime(oldTable.Length * 2);
      Clear(newCapacity);
      MovedStart(chains, m);
      for i := 0 to oldTable.Length
        invariant Valid() && fresh(bucketArray) && bucketArray.Length == newCapacity
        invariant oldTable[..] == chains
        invariant Moved(chains, m, content, i, 0)
      {
        RehashChain(oldTable[i], chains, m, i);
      }
      MovedAll(chains, m, content);
    }

    /** The start of `rehash`: a fresh array of `capacity` empty buckets and
        a size of 0. */
    method Clear(capacity: int)
      requires Prime(capacity)
      modifies this
      ensures Valid() && fresh(bucketArray) && bucketArray.Length == capacity
      ensures content == map[] && size == 0
    {
      bucketArray := new seq<Entry<V>>[capacity](_ => []);
      size := 0;
      content := map[];
      EmptyTable(bucketArray[..]);
    }

    /** The inner loop of `rehash`: re-puts the entries of one old chain, in
        chain order, none of which is stored yet. */
    method RehashChain(chain: seq<Entry<V>>, ghost chains: seq<seq<Entry<V>>>, ghost m: map<string, V>, ghost i: int)
      requires Valid() && Table(chains, m) && 0 <= i < |chains| && chain == chains[i]
      requires Moved(chains, m, content, i, 0) && 4 * |m| < 3 * bucketArray.Length
      modifies this, bucketArray
      ensures Valid() && bucketArray == old(bucketArray)
      ensures Moved(chains, m, content, i + 1, 0)
      decreases 0, 2
    {
      for j := 0 to |chain|
        invariant Valid() && bucketArray == old(bucketArray)
        invariant Moved(chains, m, content, i, j)
      {
        MovedStep(chains, m, content, i, j);
        Put(chain[j].key, chain[j].value);
      }
      MovedRow(chains, m, content, i);
    }

    /** `remove`: deletes the entry for `key` and reports whether there was
        one; the table is otherwise unchanged. */
    method Remove(key: string) returns (removed: bool)
      requires Valid()
      modifies this, bucketArray
      ensures Valid() && bucketArray == old(bucketArray)
      ensures removed == (key in old(content))
      ensures content == old(content) - {key}
      ensures !removed ==> bucketArray[..] == old(bucketArray[..])
    {
      var index := Hash(key);
      ghost var before := bucketArray[..];
      TableLookup(before, content, key);
      var found, rest := Delete(bucketArray[index], key);
      if found {
        TableRemove(before, content, key);
        SetBucket(index, rest);
        size := size - 1;
        content := content - {key};
      } else {
        assert content - {key} == content;
      }
      return found;
    }
  }

  /** `new HashTable(capacity, Division)`: `IllegalArgumentException` when
      the capacity is below 1, otherwise an empty table. */
  method Create<V>(capacity: int) returns (r: Result<HashTable<V>>)
    ensures r.Failure? <==> capacity < 1
    ensures r.Failure? ==> r.error == IllegalArgument
    ensures r.Success? ==> fresh(r.value) && fresh(r.value.bucketArray) && r.value.Valid()
    ensures r.Success? ==> r.value.content == map[] && LeastPrimeFrom(capacity, r.value.bucketArray.Length)
  {
    if capacity < 1 {
      return Failure(IllegalArgument);
    }
    var t := new HashTable<V>(capacity);
    return Success(t);
  }
}
