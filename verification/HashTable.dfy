/** The chained hash table of the drivers. */
module HashTable {

  type Byte = b: int | 0 <= b < 0x100

  /** A pointer to a value; NULL is 0. */
  const NULL := 0
  type Value = p: nat | p != NULL witness 1

  const PRIMES: seq<nat> := [
    53, 97, 193, 389,
    769, 1543, 3079, 6151,
    12289, 24593, 49157, 98317,
    196613, 393241, 786433, 1572869,
    3145739, 6291469, 12582917, 25165843,
    50331653, 100663319, 201326611, 402653189,
    805306457, 1610612741]

  const PRIME_TABLE_LENGTH := 26

  function Prime(i: nat): (p: nat)
    requires i < PRIME_TABLE_LENGTH
    ensures p > 0
  {
    PRIMES[i]
  }

  /** The load limit: 65/100 of the length, rounded up. */
  function LoadLimit(length: nat): (n: nat) {
    (length * 65 + 99) / 100
  }

  /** It is the least count that is 65/100 of the length or more. */
  lemma {:induction false} LoadLimitExactly(length: nat, n: nat)
    ensures n == LoadLimit(length) <==> 100 * n - 100 < 65 * length <= 100 * n
  {
  }

  // ---------------------------------------------------------------------------
  // C strings and hashes.
  // ---------------------------------------------------------------------------

  /** The bytes before the first NUL, all of them when there is none. */
  function Cut(s: seq<Byte>): (r: seq<Byte>)
    ensures |r| <= |s| && r == s[..|r|] && 0 !in r
    ensures |r| < |s| ==> s[|r|] == 0
  {
    if s == [] || s[0] == 0 then [] else [s[0]] + Cut(s[1..])
  }

  lemma {:induction false} CutWhole(s: seq<Byte>)
    ensures Cut(s) == s <==> 0 !in s
  {
    assert |Cut(s)| < |s| ==> s[|Cut(s)|] in s;
  }

  lemma {:induction false} CutAt(s: seq<Byte>, n: nat)
    requires n < |s| && s[n] == 0 && 0 !in s[..n]
    ensures Cut(s) == s[..n]
    decreases n
  {
    if n > 0 {
      var rest := s[1..];
      assert rest[..n - 1] == s[1..n];
      assert s[..n] == [s[0]] + s[1..n];
      CutAt(rest, n - 1);
    }
  }

  const WORD := 0x1_0000_0000

  type Word = w: int | 0 <= w < WORD

  /** A byte read through a signed char. */
  function SignExtend(c: Byte): (w: Word) {
    if c < 0x80 then c else WORD - 0x100 + c
  }

  function Exp2(n: nat): (p: nat)
    ensures p > 0
  {
    if n == 0 then 1 else 2 * Exp2(n - 1)
  }

  /** Exclusive or of `n`-bit numbers, bit by bit. */
  function XorBits(n: nat, a: nat, b: nat): (r: nat)
    requires a < Exp2(n) && b < Exp2(n)
    ensures r < Exp2(n)
  {
    if n == 0 then 0 else (a + b) % 2 + 2 * XorBits(n - 1, a / 2, b / 2)
  }

  function Bit(a: nat, i: nat): (b: nat) {
    if i == 0 then a % 2 else Bit(a / 2, i - 1)
  }

  lemma {:induction false} BitDown(a: nat, i: nat)
    ensures Bit(a, i) == if i == 0 then a % 2 else Bit(a / 2, i - 1)
  {
  }

  lemma {:induction false} XorDown(n: nat, a: nat, b: nat)
    requires n > 0 && a < Exp2(n) && b < Exp2(n)
    ensures a / 2 < Exp2(n - 1) && b / 2 < Exp2(n - 1)
    ensures XorBits(n, a, b) / 2 == XorBits(n - 1, a / 2, b / 2) && XorBits(n, a, b) % 2 == (a + b) % 2
  {
  }

  /** Each bit is set exactly when it is set in one of the two numbers and not in both. */
  lemma {:induction false} XorExactly(n: nat, a: nat, b: nat, i: nat)
    requires a < Exp2(n) && b < Exp2(n) && i < n
    ensures Bit(XorBits(n, a, b), i) == if Bit(a, i) == Bit(b, i) then 0 else 1
    decreases n
  {
    hide Bit, XorBits, Exp2;
    XorDown(n, a, b);
    BitDown(XorBits(n, a, b), i);
    BitDown(a, i);
    BitDown(b, i);
    if i == 0 {
      Parity(a, b);
    } else {
      XorExactly(n - 1, a / 2, b / 2, i - 1);
    }
  }

  lemma {:induction false} Parity(a: nat, b: nat)
    ensures (a + b) % 2 == if a % 2 == b % 2 then 0 else 1
  {
  }

  lemma {:induction false} LowBits(n: nat, a: nat, k: nat, i: nat)
    requires i < n
    ensures Bit(a + Exp2(n) * k, i) == Bit(a, i)
    decreases n
  {
    var (e, x) := (Exp2(n - 1), a + Exp2(n) * k);
    assert Exp2(n) * k == 2 * (e * k);
    assert x == a + 2 * (e * k);
    if i > 0 {
      assert x / 2 == a / 2 + e * k;
      LowBits(n - 1, a / 2, k, i - 1);
    }
  }

  lemma {:induction false} HighBits(n: nat, a: nat, k: nat, i: nat)
    requires a < Exp2(n) && i >= n
    ensures Bit(a + Exp2(n) * k, i) == Bit(k, i - n)
    decreases n
  {
    if n > 0 {
      var (e, x) := (Exp2(n - 1), a + Exp2(n) * k);
      assert Exp2(n) * k == 2 * (e * k);
      assert x / 2 == a / 2 + e * k;
      HighBits(n - 1, a / 2, k, i - 1);
    }
  }

  lemma {:induction false} OnesAndZeros(n: nat, i: nat)
    ensures i < n ==> Bit(Exp2(n) - 1, i) == 1
    ensures Bit(0, i) == 0
    decreases i
  {
    if i > 0 {
      OnesAndZeros(if n > 0 then n - 1 else 0, i - 1);
      if n > 0 { assert (Exp2(n) - 1) / 2 == Exp2(n - 1) - 1; }
    }
  }

  lemma {:induction false} ByteBits()
    ensures Exp2(8) == 0x100 && Exp2(24) == 0x100_0000
  {
    assert Exp2(4) == 0x10 && Exp2(8) == 0x10 * Exp2(4);
    assert Exp2(12) == 0x10 * Exp2(8) && Exp2(16) == 0x10 * Exp2(12);
    assert Exp2(20) == 0x10 * Exp2(16) && Exp2(24) == 0x10 * Exp2(20);
  }

  lemma {:induction false} TopBit(c: Byte)
    ensures Bit(c, 7) == if c < 0x80 then 0 else 1
  {
    hide Bit;
    BitDown(c, 7);
    BitDown(c / 2, 6);
    BitDown(c / 2 / 2, 5);
    BitDown(c / 2 / 2 / 2, 4);
    BitDown(c / 2 / 2 / 2 / 2, 3);
    BitDown(c / 2 / 2 / 2 / 2 / 2, 2);
    BitDown(c / 2 / 2 / 2 / 2 / 2 / 2, 1);
    BitDown(c / 2 / 2 / 2 / 2 / 2 / 2 / 2, 0);
  }

  /** The upper bits of a sign-extended byte repeat its bit 7. */
  lemma {:induction false} SignExactly(c: Byte, i: nat)
    requires i < 32
    ensures Bit(SignExtend(c), i) == if i < 8 then Bit(c, i) else Bit(c, 7)
  {
    ByteBits();
    TopBit(c);
    var k := if c < 0x80 then 0 else 0x100_0000 - 1;
    assert SignExtend(c) == c + Exp2(8) * k;
    hide Bit, Exp2;
    if i < 8 {
      LowBits(8, c, k, i);
    } else {
      HighBits(8, c, k, i);
      OnesAndZeros(24, i - 8);
    }
  }

  lemma {:induction false} WordBits()
    ensures Exp2(32) == WORD
  {
    assert Exp2(4) == 0x10;
    assert Exp2(8) == 0x10 * Exp2(4) == 0x100;
    assert Exp2(12) == 0x10 * Exp2(8) && Exp2(16) == 0x10 * Exp2(12);
    assert Exp2(20) == 0x10 * Exp2(16) && Exp2(24) == 0x10 * Exp2(20);
    assert Exp2(28) == 0x10 * Exp2(24) && Exp2(32) == 0x10 * Exp2(28);
  }

  function Xor(a: Word, b: Word): (w: Word) {
    WordBits();
    XorBits(32, a, b)
  }

  /** hash * 33 ^ c, on 32 bits. */
  function HashStep(h: Word, c: Byte): (w: Word) {
    Xor((h * 33) % WORD, SignExtend(c))
  }

  function HashOf(s: seq<Byte>): (h: Word) {
    if s == [] then 5381 else HashStep(HashOf(s[..|s| - 1]), s[|s| - 1])
  }

  /** The hash starts at 5381; each byte multiplies it by 33, on 32 bits, and flips the bits that are
      set in the byte read as a signed number. */
  lemma {:induction false} HashExactly(s: seq<Byte>, c: Byte, i: nat)
    requires i < 32
    ensures HashOf([]) == 5381
    ensures Bit(HashOf(s + [c]), i) ==
      if Bit(HashOf(s) * 33 % 0x1_0000_0000, i) == Bit(c, if i < 8 then i else 7) then 0 else 1
  {
    assert (s + [c])[..|s|] == s;
    var h := HashOf(s);
    WordBits();
    SignExactly(c, i);
    hide Bit, XorBits, SignExtend, Exp2;
    XorExactly(32, h * 33 % WORD, SignExtend(c), i);
  }

  function Index(h: Word, length: nat): (i: nat)
    requires length > 0
    ensures i < length
  {
    h % length
  }

  /** What the source demands of a key argument: a NUL inside the buffer when no length is
      given (-1), and that many bytes otherwise. */
  predicate KeyArg(key: seq<Byte>, keyLen: int) {
    if keyLen == -1 then 0 in key else 0 <= keyLen <= |key|
  }

  /** The bytes a key argument denotes. */
  function KeyBytes(key: seq<Byte>, keyLen: int): (r: seq<Byte>)
    requires KeyArg(key, keyLen)
  {
    if keyLen == -1 then Cut(key) else key[..keyLen]
  }

  method HashNul(key: seq<Byte>) returns (hash: Word)
    requires 0 in key
    ensures hash == HashOf(Cut(key))
  {
    hide HashStep;
    hash := 5381;
    var i := 0;
    while key[i] != 0
      invariant 0 <= i < |key| && 0 !in key[..i]
      invariant exists k :: i <= k < |key| && key[k] == 0
      invariant hash == HashOf(key[..i])
      decreases |key| - i
    {
      assert key[..i + 1][..i] == key[..i];
      hash := HashStep(hash, key[i]);
      i := i + 1;
    }
    CutAt(key, i);
  }

  method HashLen(key: seq<Byte>, keyLen: nat) returns (hash: Word)
    requires keyLen <= |key|
    ensures hash == HashOf(key[..keyLen])
  {
    hide HashStep;
    hash := 5381;
    for i := 0 to keyLen
      invariant hash == HashOf(key[..i])
    {
      assert key[..i + 1][..i] == key[..i];
      hash := HashStep(hash, key[i]);
    }
  }

  // ---------------------------------------------------------------------------
  // Entries and chains.
  // ---------------------------------------------------------------------------

  class Entry {
    const key: seq<Byte>
    const keyLen: int
    const value: Value
    const hash: Word
    var next: Entry?

    /** The stored key always ends in a NUL, which a key stored with a length may hold too. */
    predicate Sound() {
      && 0 in key
      && (keyLen == -1 || (0 <= keyLen == |key| - 1))
      && hash == HashOf(KeyBytes(key, keyLen))
    }

    constructor (key: seq<Byte>, keyLen: int, value: Value)
      requires KeyArg(key, keyLen)
      ensures Sound() && next == null && this.value == value && this.keyLen == keyLen
      ensures KeyBytes(this.key, keyLen) == KeyBytes(key, keyLen)
    {
      hide HashOf;
      var hash;
      if keyLen == -1 {
        hash := HashNul(key);
        this.key := Cut(key) + [0];
        CutAt(Cut(key) + [0], |Cut(key)|);
      } else {
        hash := HashLen(key, keyLen);
        this.key := key[..keyLen] + [0];
        assert (key[..keyLen] + [0])[..keyLen] == key[..keyLen];
      }
      assert (Cut(key) + [0])[|Cut(key)|] == 0 && (keyLen >= 0 ==> (key[..keyLen] + [0])[keyLen] == 0);
      assert (Cut(key) + [0])[..|Cut(key)|] == Cut(key);
      this.keyLen, this.value, this.hash, this.next := keyLen, value, hash, null;
    }

    /** The test of the fetch loop: full comparison after the short-circuiting hash check. */
    predicate Matches(key: seq<Byte>, keyLen: int, hash: Word)
      requires Sound() && KeyArg(key, keyLen)
    {
      this.hash == hash &&
      ((keyLen == -1 && Cut(this.key) == Cut(key))
       || (this.keyLen == keyLen && if keyLen == -1 then Cut(this.key) == Cut(key)
                                    else Cut(this.key[..keyLen]) == Cut(key[..keyLen])))
    }
  }

  ghost predicate NoDup(c: seq<Entry>) {
    forall i, j :: 0 <= i < j < |c| ==> c[i] != c[j]
  }

  /** `head` starts the chain `c`. */
  ghost predicate Linked(head: Entry?, c: seq<Entry>)
    reads set e | e in c
    decreases |c|
  {
    if c == [] then head == null else head == c[0] && Linked(c[0].next, c[1..])
  }

  ghost function Flatten(cs: seq<seq<Entry>>): (r: seq<Entry>)
    ensures forall i, e :: 0 <= i < |cs| && e in cs[i] ==> e in r
  {
    if cs == [] then [] else cs[0] + Flatten(cs[1..])
  }

  /** The entries of `s` that belong in bucket `k`, the last one first. */
  ghost function Collected(s: seq<Entry>, k: nat, length: nat): (r: seq<Entry>)
    requires length > 0
    ensures forall e :: e in r ==> e in s
    decreases |s|
  {
    if s == [] then []
    else
      var e, rest := s[|s| - 1], Collected(s[..|s| - 1], k, length);
      if Index(e.hash, length) == k then [e] + rest else rest
  }

  lemma {:induction false} CollectedIn(s: seq<Entry>, k: nat, length: nat)
    requires length > 0
    ensures forall e :: e in Collected(s, k, length) <==> e in s && Index(e.hash, length) == k
    ensures NoDup(s) ==> NoDup(Collected(s, k, length))
    decreases |s|
  {
    if s != [] {
      hide Index;
      var front, e := s[..|s| - 1], s[|s| - 1];
      assert s == front + [e];
      CollectedIn(front, k, length);
    }
  }

  lemma {:induction false} CollectedSnoc(s: seq<Entry>, e: Entry, k: nat, length: nat)
    requires length > 0
    ensures Collected(s + [e], k, length) ==
      if Index(e.hash, length) == k then [e] + Collected(s, k, length) else Collected(s, k, length)
  {
    assert (s + [e])[..|s|] == s;
  }

  /** `x` comes before `y` in `c`. */
  ghost predicate Precedes(x: Entry, y: Entry, c: seq<Entry>) {
    c != [] && if c[0] == x then y in c[1..] else Precedes(x, y, c[1..])
  }

  /** Collecting reverses: of two entries of one bucket the later one comes first, so that after
      an expansion the older of two entries with the same key would be found. */
  lemma {:induction false} CollectedReverses(s: seq<Entry>, i: nat, j: nat, length: nat)
    requires length > 0 && i < j < |s| && NoDup(s) && Index(s[i].hash, length) == Index(s[j].hash, length)
    ensures Precedes(s[j], s[i], Collected(s, Index(s[i].hash, length), length))
    decreases |s|
  {
    hide Index;
    var front, e, k := s[..|s| - 1], s[|s| - 1], Index(s[i].hash, length);
    var rest := Collected(front, k, length);
    CollectedIn(front, k, length);
    assert ([e] + rest)[1..] == rest && ([e] + rest)[0] == e;
    if j == |s| - 1 {
      assert front[i] in front;
    } else {
      CollectedReverses(front, i, j, length);
    }
  }

  lemma {:induction false} FlattenIn(cs: seq<seq<Entry>>, e: Entry)
    ensures e in Flatten(cs) <==> exists i :: 0 <= i < |cs| && e in cs[i]
    decreases |cs|
  {
    if cs != [] {
      FlattenIn(cs[1..], e);
      assert forall i :: 0 <= i < |cs[1..]| ==> cs[1..][i] == cs[i + 1];
      if i :| 0 <= i < |cs| && e in cs[i] {
        if i > 0 { assert e in cs[1..][i - 1]; }
      }
    }
  }

  /** Chains without duplicates whose entries sit in different buckets flatten without duplicates. */
  lemma {:induction false} FlattenNoDup(cs: seq<seq<Entry>>)
    requires forall i :: 0 <= i < |cs| ==> NoDup(cs[i])
    requires forall i, j, e :: 0 <= i < j < |cs| && e in cs[i] ==> e !in cs[j]
    ensures NoDup(Flatten(cs))
    decreases |cs|
  {
    if cs != [] {
      FlattenNoDup(cs[1..]);
      var rest := Flatten(cs[1..]);
      forall i, j | 0 <= i < |cs[0]| && 0 <= j < |rest| ensures cs[0][i] != rest[j] {
        FlattenIn(cs[1..], rest[j]);
        assert rest[j] in rest && cs[0][i] in cs[0];
      }
    }
  }

  lemma {:induction false} FlattenBag(cs: seq<seq<Entry>>)
    requires cs != []
    ensures multiset(Flatten(cs)) == multiset(cs[0]) + multiset(Flatten(cs[1..]))
  {
  }

  lemma {:induction false} PushBag(c: seq<Entry>, e: Entry)
    ensures multiset([e] + c) == multiset(c) + multiset{e}
  {
  }

  lemma {:induction false} FlattenPush(cs: seq<seq<Entry>>, k: nat, e: Entry)
    requires k < |cs|
    ensures multiset(Flatten(cs[k := [e] + cs[k]])) == multiset(Flatten(cs)) + multiset{e}
    decreases |cs|
  {
    hide Flatten;
    var ds := cs[k := [e] + cs[k]];
    FlattenBag(cs);
    FlattenBag(ds);
    if k == 0 {
      assert ds[1..] == cs[1..];
      PushBag(cs[0], e);
    } else {
      assert ds[1..] == cs[1..][k - 1 := [e] + cs[1..][k - 1]];
      FlattenPush(cs[1..], k - 1, e);
    }
  }

  ghost function Buckets(s: seq<Entry>, length: nat): (cs: seq<seq<Entry>>)
    requires length > 0
    ensures |cs| == length && forall k :: 0 <= k < length ==> cs[k] == Collected(s, k, length)
  {
    seq(length, k requires 0 <= k => Collected(s, k, length))
  }

  /** Distributing entries over buckets neither loses nor repeats any. */
  lemma {:induction false} BucketsKeepAll(s: seq<Entry>, length: nat)
    requires length > 0
    ensures multiset(Flatten(Buckets(s, length))) == multiset(s)
    decreases |s|
  {
    if s == [] {
      AllEmpty(Buckets(s, length));
    } else {
      var front, e := s[..|s| - 1], s[|s| - 1];
      var k := Index(e.hash, length);
      hide Index;
      assert s == front + [e];
      forall j | 0 <= j < length
        ensures Collected(s, j, length) ==
          if j == k then [e] + Collected(front, j, length) else Collected(front, j, length)
      {
        CollectedSnoc(front, e, j, length);
      }
      assert Buckets(s, length) == Buckets(front, length)[k := [e] + Buckets(front, length)[k]];
      BucketsKeepAll(front, length);
      FlattenPush(Buckets(front, length), k, e);
    }
  }

  lemma {:induction false} AllEmpty(cs: seq<seq<Entry>>)
    requires forall i :: 0 <= i < |cs| ==> cs[i] == []
    ensures Flatten(cs) == []
    decreases |cs|
  {
    if cs != [] { AllEmpty(cs[1..]); }
  }

  lemma {:induction false} LinkedTail(head: Entry?, c: seq<Entry>)
    requires Linked(head, c) && c != []
    ensures head == c[0] && Linked(c[0].next, c[1..])
  {
  }

  lemma {:induction false} LinkedCons(e: Entry, c: seq<Entry>)
    requires Linked(e.next, c)
    ensures Linked(e, [e] + c)
  {
    assert ([e] + c)[1..] == c;
  }

  // ---------------------------------------------------------------------------
  // What a search along a chain finds.
  // ---------------------------------------------------------------------------

  /** The test of the fetch loop, false of an entry that no constructor makes. */
  ghost predicate Hit(e: Entry, key: seq<Byte>, keyLen: int) {
    e.Sound() && KeyArg(key, keyLen) && e.Matches(key, keyLen, HashOf(KeyBytes(key, keyLen)))
  }

  /** The value of the first entry that matches, NULL when none does. */
  ghost function Found(c: seq<Entry>, key: seq<Byte>, keyLen: int): (value: nat) {
    if c == [] then NULL else if Hit(c[0], key, keyLen) then c[0].value else Found(c[1..], key, keyLen)
  }

  ghost function FoundLast(c: seq<Entry>, key: seq<Byte>, keyLen: int): (value: nat)
    decreases |c|
  {
    if c == [] then NULL
    else
      var e := c[|c| - 1];
      if Hit(e, key, keyLen) then e.value else FoundLast(c[..|c| - 1], key, keyLen)
  }

  lemma {:induction false} FoundExactly(c: seq<Entry>, key: seq<Byte>, keyLen: int)
    ensures Found(c, key, keyLen) == NULL <==> forall e :: e in c ==> !Hit(e, key, keyLen)
    ensures Found(c, key, keyLen) != NULL ==>
      exists e :: e in c && Hit(e, key, keyLen) && Found(c, key, keyLen) == e.value
    decreases |c|
  {
    hide Hit;
    if c != [] { FoundExactly(c[1..], key, keyLen); }
  }

  lemma {:induction false} FoundStep(c: seq<Entry>, key: seq<Byte>, keyLen: int)
    ensures Found(c, key, keyLen) ==
      if c == [] then NULL else if Hit(c[0], key, keyLen) then c[0].value else Found(c[1..], key, keyLen)
  {
  }

  lemma {:induction false} SoundHits(s: seq<Entry>, key: seq<Byte>, keyLen: int)
    requires KeyArg(key, keyLen) && forall e :: e in s ==> e.Sound()
    ensures forall e :: e in s ==>
      (Hit(e, key, keyLen) <==> e.Matches(key, keyLen, HashOf(KeyBytes(key, keyLen))))
  {
    hide HashOf;
  }

  lemma {:induction false} FoundConcat(a: seq<Entry>, b: seq<Entry>, key: seq<Byte>, keyLen: int)
    ensures Found(a + b, key, keyLen) ==
      if Found(a, key, keyLen) != NULL then Found(a, key, keyLen) else Found(b, key, keyLen)
    decreases |a|
  {
    hide Hit;
    if a == [] {
      assert a + b == b;
    } else {
      assert (a + b)[1..] == a[1..] + b;
      FoundConcat(a[1..], b, key, keyLen);
    }
  }

  /** Each entry is in the bucket of its hash, once. */
  ghost predicate Placed(cs: seq<seq<Entry>>) {
    && |cs| > 0
    && (forall i :: 0 <= i < |cs| ==> NoDup(cs[i]))
    && (forall i, e :: 0 <= i < |cs| && e in cs[i] ==> Index(e.hash, |cs|) == i && e.Sound())
  }

  /** The bucket of an entry is its hash modulo the number of buckets. */
  lemma {:induction false} PlacedByHash(cs: seq<seq<Entry>>, i: nat, e: Entry)
    requires Placed(cs) && e in Flatten(cs) && i < |cs|
    ensures e in cs[i] <==> e.hash % |cs| == i
  {
    FlattenIn(cs, e);
  }

  /** A matching entry can only be in the bucket of the key's hash. */
  lemma {:induction false} OnlyInBucket(cs: seq<seq<Entry>>, key: seq<Byte>, keyLen: int)
    requires Placed(cs) && KeyArg(key, keyLen)
    ensures Found(Flatten(cs), key, keyLen) == Found(cs[Index(HashOf(KeyBytes(key, keyLen)), |cs|)], key, keyLen)
  {
    var k := Index(HashOf(KeyBytes(key, keyLen)), |cs|);
    forall i, e | 0 <= i < |cs| && i != k && e in cs[i] ensures !Hit(e, key, keyLen) {
    }
    hide Index, Hit, Placed, HashOf, KeyBytes;
    FoundInOne(cs, k, key, keyLen);
  }

  lemma {:induction false} FoundInOne(cs: seq<seq<Entry>>, k: nat, key: seq<Byte>, keyLen: int)
    requires k < |cs| && forall i, e :: 0 <= i < |cs| && i != k && e in cs[i] ==> !Hit(e, key, keyLen)
    ensures Found(Flatten(cs), key, keyLen) == Found(cs[k], key, keyLen)
    decreases |cs|
  {
    hide Hit;
    var rest := cs[1..];
    assert forall i :: 0 <= i < |rest| ==> rest[i] == cs[i + 1];
    FoundConcat(cs[0], Flatten(rest), key, keyLen);
    if k > 0 {
      FoundExactly(cs[0], key, keyLen);
      FoundInOne(rest, k - 1, key, keyLen);
    } else {
      forall e | e in Flatten(rest) ensures !Hit(e, key, keyLen) {
        FlattenIn(rest, e);
      }
      FoundExactly(Flatten(rest), key, keyLen);
    }
  }

  /** Collecting turns the search round: what was found last is now found first. */
  lemma {:induction false} CollectedFinds(s: seq<Entry>, length: nat, key: seq<Byte>, keyLen: int)
    requires length > 0 && KeyArg(key, keyLen)
    ensures var k := Index(HashOf(KeyBytes(key, keyLen)), length);
      Found(Collected(s, k, length), key, keyLen) == FoundLast(s, key, keyLen)
    decreases |s|
  {
    if s != [] {
      hide Index, HashOf, KeyBytes;
      CollectedFinds(s[..|s| - 1], length, key, keyLen);
      var e, k := s[|s| - 1], Index(HashOf(KeyBytes(key, keyLen)), length);
      var rest := Collected(s[..|s| - 1], k, length);
      assert ([e] + rest)[1..] == rest && ([e] + rest)[0] == e;
    }
  }

  /** So where two entries have one key, a table that finds the newer finds the older after an
      expansion: the search before it yields the first match, and the search after it the last. */
  lemma {:induction false} ExpansionTurnsSearch(cs: seq<seq<Entry>>, length: nat, key: seq<Byte>, keyLen: int)
    requires Placed(cs) && length > 0 && KeyArg(key, keyLen)
    ensures var (h, ds) := (HashOf(KeyBytes(key, keyLen)), Buckets(Flatten(cs), length));
      && Found(cs[Index(h, |cs|)], key, keyLen) == Found(Flatten(cs), key, keyLen)
      && Found(ds[Index(h, length)], key, keyLen) == FoundLast(Flatten(cs), key, keyLen)
  {
    hide Index, HashOf, KeyBytes, Flatten, Placed;
    OnlyInBucket(cs, key, keyLen);
    CollectedFinds(Flatten(cs), length, key, keyLen);
  }

  // ---------------------------------------------------------------------------
  // The table.
  // ---------------------------------------------------------------------------

  ghost predicate Collects(a: array<Entry?>, s: seq<Entry>)
    requires a.Length > 0
    reads a, set e | e in s
  {
    forall k :: 0 <= k < a.Length ==> Linked(a[k], Collected(s, k, a.Length))
  }

  lemma {:induction false} LinkedEmpty(head: Entry?, c: seq<Entry>)
    requires Linked(head, c)
    ensures head == null <==> c == []
  {
  }

  /** Moves one bucket's entries, head first, to the front of their new chains. */
  method MoveBucket(from: array<Entry?>, i: nat, into: array<Entry?>, ghost chain: seq<Entry>, ghost done: seq<Entry>)
    requires i < from.Length && into.Length > 0 && from != into
    requires NoDup(done + chain)
    requires Linked(from[i], chain) && Collects(into, done)
    modifies from, into, set e | e in chain
    ensures Collects(into, done + chain)
    ensures forall b :: 0 <= b < from.Length && b != i ==> from[b] == old(from[b])
  {
    hide Index, NoDup, Collected, Linked;
    ghost var t := 0;
    assert chain[0..] == chain && done + chain[..0] == done;
    while from[i] != null
      invariant 0 <= t <= |chain|
      invariant Linked(from[i], chain[t..])
      invariant Collects(into, done + chain[..t])
      invariant forall b :: 0 <= b < from.Length && b != i ==> from[b] == old(from[b])
      decreases |chain| - t
    {
      ghost var moved := done + chain[..t];
      var entry := from[i];
      LinkedEmpty(entry, chain[t..]);
      LinkedTail(entry, chain[t..]);
      assert chain[t..][1..] == chain[t + 1..] && chain[t..][0] == chain[t] == entry;
      NotMoved(done, chain, t);
      from[i] := entry.next;
      var index := Index(entry.hash, into.Length);
      entry.next := into[index];
      LinkedCons(entry, Collected(moved, index, into.Length));
      into[index] := entry;
      assert done + chain[..t + 1] == moved + [entry];
      forall k | 0 <= k < into.Length ensures Linked(into[k], Collected(moved + [entry], k, into.Length)) {
        CollectedSnoc(moved, entry, k, into.Length);
      }
      t := t + 1;
    }
    LinkedEmpty(from[i], chain[t..]);
    assert chain[..t] == chain;
  }

  lemma {:induction false} NotMoved(done: seq<Entry>, chain: seq<Entry>, t: nat)
    requires NoDup(done + chain) && t < |chain|
    ensures chain[t] !in done + chain[..t] && chain[t] !in chain[t + 1..]
  {
    assert (done + chain)[|done| + t] == chain[t];
    assert forall j :: 0 <= j < |done| + t ==> (done + chain[..t])[j] == (done + chain)[j];
    var later := chain[t + 1..];
    assert forall j :: 0 <= j < |later| ==> later[j] == (done + chain)[|done| + t + 1 + j];
  }

  lemma {:induction false} PlacedApart(cs: seq<seq<Entry>>)
    requires Placed(cs)
    ensures forall i, j, e :: 0 <= i < j < |cs| && e in cs[i] ==> e !in cs[j]
  {
    hide Index;
    forall i, j, e | 0 <= i < j < |cs| && e in cs[i] ensures e !in cs[j] {
      assert Index(e.hash, |cs|) == i;
    }
  }

  lemma {:induction false} PlacedAll(cs: seq<seq<Entry>>)
    requires Placed(cs)
    ensures NoDup(Flatten(cs))
    ensures forall e :: e in Flatten(cs) ==> e.Sound() && e in cs[Index(e.hash, |cs|)]
  {
    hide Index;
    PlacedApart(cs);
    FlattenNoDup(cs);
    forall e | e in Flatten(cs) ensures e.Sound() && e in cs[Index(e.hash, |cs|)] {
      FlattenIn(cs, e);
    }
  }

  lemma {:induction false} BucketsPlaced(s: seq<Entry>, length: nat)
    requires length > 0 && NoDup(s) && forall e :: e in s ==> e.Sound()
    ensures Placed(Buckets(s, length))
  {
    hide Index, NoDup;
    forall i | 0 <= i < length { CollectedIn(s, i, length); }
  }

  lemma {:induction false} PushPlaced(cs: seq<seq<Entry>>, e: Entry)
    requires Placed(cs) && e.Sound() && e !in Flatten(cs)
    ensures var i := Index(e.hash, |cs|); Placed(cs[i := [e] + cs[i]])
  {
    hide Index;
    var i := Index(e.hash, |cs|);
    assert e !in cs[i];
  }

  /** Moves every bucket, in order. */
  method MoveBuckets(from: array<Entry?>, into: array<Entry?>, ghost chains: seq<seq<Entry>>)
    requires from.Length == |chains| && Placed(chains) && into.Length > 0 && from != into
    requires forall b :: 0 <= b < |chains| ==> Linked(from[b], chains[b])
    requires Collects(into, [])
    modifies from, into, set e | e in Flatten(chains)
    ensures Collects(into, Flatten(chains))
  {
    hide Index, NoDup, Collected, Linked, Flatten;
    ghost var all, done := Flatten(chains), [];
    assert chains[0..] == chains && [] + all == all;
    var i := 0;
    while i < from.Length
      invariant 0 <= i <= from.Length
      invariant done + Flatten(chains[i..]) == all
      invariant Collects(into, done)
      invariant forall b :: i <= b < from.Length ==> Linked(from[b], chains[b])
    {
      MoveOne(chains, done, i);
      MoveBucket(from, i, into, chains[i], done);
      done := done + chains[i];
      i := i + 1;
    }
    FlattenNothing(chains, done);
  }

  class Table {
    var entries: array<Entry?>
    var length: nat
    var entriesCount: nat
    var loadLimit: nat
    var primeIndex: nat
    ghost var chains: seq<seq<Entry>>

    ghost function All(): (s: seq<Entry>)
      reads `chains
    {
      Flatten(chains)
    }

    ghost predicate Shaped()
      reads `entries, `length, `loadLimit, `primeIndex, `chains, entries, set e | e in All()
    {
      && primeIndex < PRIME_TABLE_LENGTH
      && length == Prime(primeIndex) == entries.Length == |chains|
      && loadLimit == LoadLimit(length)
      && Placed(chains)
      && forall i :: 0 <= i < |chains| ==> Linked(entries[i], chains[i])
    }

    /** The table is full only when no larger prime is left. */
    ghost predicate Valid()
      reads this, entries, set e | e in All()
    {
      && Shaped()
      && entriesCount == |All()|
      && (entriesCount <= loadLimit || primeIndex == PRIME_TABLE_LENGTH - 1)
    }

    constructor (pindex: nat)
      requires pindex < PRIME_TABLE_LENGTH
      ensures Valid() && All() == [] && primeIndex == pindex && fresh(entries)
    {
      length := Prime(pindex);
      entries := new Entry?[Prime(pindex)](_ => null);
      entriesCount := 0;
      loadLimit := LoadLimit(Prime(pindex));
      primeIndex := pindex;
      chains := seq(Prime(pindex), _ => []);
      new;
      AllEmpty(chains);
    }

    method Expand()
      requires Shaped()
      modifies this, entries, set e | e in All()
      ensures Shaped() && entriesCount == old(entriesCount)
      ensures multiset(All()) == old(multiset(All()))
      ensures old(primeIndex) == PRIME_TABLE_LENGTH - 1 ==> primeIndex == old(primeIndex) && chains == old(chains)
      ensures old(primeIndex) < PRIME_TABLE_LENGTH - 1 ==>
        primeIndex == old(primeIndex) + 1 && chains == Buckets(old(All()), length) && loadLimit > old(loadLimit)
      ensures entries == old(entries) || fresh(entries)
    {
      hide Index, NoDup, Collected, Linked, Flatten, LoadLimit, Prime, Buckets, Collects, Placed;
      if primeIndex == PRIME_TABLE_LENGTH - 1 { return; }
      ghost var all := All();
      primeIndex := primeIndex + 1;
      var newLength := Prime(primeIndex);
      var newEntries := new Entry?[newLength](_ => null);
      PlacedAll(chains);
      StartCollects(newEntries);
      MoveBuckets(entries, newEntries, chains);
      hide Hit, Found, HashOf, KeyBytes, KeyArg;
      GrowthRoom(old(primeIndex));
      BucketsKeepAll(all, newLength);
      BucketsPlaced(all, newLength);
      CollectsBuckets(newEntries, all);
      entries := newEntries;
      length := newLength;
      loadLimit := LoadLimit(newLength);
      chains := Buckets(all, newLength);
    }

    /** Puts a new entry at the front of its chain. */
    method Wire(entry: Entry)
      requires Shaped() && entry.Sound() && entry !in All()
      modifies `chains, entries, entry
      ensures Shaped() && multiset(All()) == old(multiset(All())) + multiset{entry}
    {
      hide Index, NoDup, Linked, Flatten, Prime, LoadLimit;
      var index := Index(entry.hash, length);
      entry.next := entries[index];
      LinkedCons(entry, chains[index]);
      entries[index] := entry;
      PushPlaced(chains, entry);
      FlattenPush(chains, index, entry);
      hide Placed;
      chains := chains[index := [entry] + chains[index]];
    }

    /** Counts one more entry, and grows the table when the count passes the load limit. */
    method CountEntry()
      requires Valid()
      modifies this, entries, set e | e in All()
      ensures Shaped() && multiset(All()) == old(multiset(All()))
      ensures entriesCount == |All()| + 1
      ensures entriesCount <= loadLimit || primeIndex == PRIME_TABLE_LENGTH - 1
      ensures primeIndex ==
        old(if entriesCount == loadLimit && primeIndex < PRIME_TABLE_LENGTH - 1 then primeIndex + 1 else primeIndex)
      ensures entries == old(entries) || fresh(entries)
    {
      hide Index, Flatten, LoadLimit, Prime, Placed, Linked;
      ghost var before := All();
      entriesCount := entriesCount + 1;
      if entriesCount > loadLimit {
        Expand();
      }
      SameSize(before, All());
    }

    /** Stores a value under a key. */
    method Store(key: seq<Byte>, keyLen: int, value: Value) returns (ghost entry: Entry)
      requires Valid() && KeyArg(key, keyLen)
      modifies this, entries, set e | e in All()
      ensures Valid()
      ensures fresh(entry) && entry.Sound() && entry.keyLen == keyLen && entry.value == value
      ensures KeyBytes(entry.key, keyLen) == KeyBytes(key, keyLen)
      ensures multiset(All()) == old(multiset(All())) + multiset{entry}
      ensures primeIndex ==
        old(if entriesCount == loadLimit && primeIndex < PRIME_TABLE_LENGTH - 1 then primeIndex + 1 else primeIndex)
      ensures entries == old(entries) || fresh(entries)
    {
      hide Index, Flatten, KeyBytes, KeyArg, HashOf, Cut, Shaped;
      CountEntry();
      ghost var counted := All();
      var e := MakeEntry(key, keyLen, value);
      entry := e;
      Wire(e);
      PushSize(counted, All(), e);
    }

    method MakeEntry(key: seq<Byte>, keyLen: int, value: Value) returns (entry: Entry)
      requires Shaped() && KeyArg(key, keyLen)
      ensures Shaped() && entry !in All()
      ensures fresh(entry) && entry.Sound() && entry.keyLen == keyLen && entry.value == value
      ensures KeyBytes(entry.key, keyLen) == KeyBytes(key, keyLen)
    {
      hide Index, Flatten, KeyBytes, KeyArg, HashOf, Cut, LoadLimit, Prime, Placed, Linked;
      entry := new Entry(key, keyLen, value);
      assert forall i :: 0 <= i < |chains| ==> entry !in chains[i];
      FlattenIn(chains, entry);
    }

    /** The value of the first entry of the chain that matches, NULL when none in the table does. */
    method Fetch(key: seq<Byte>, keyLen: int) returns (value: nat)
      requires Valid() && KeyArg(key, keyLen)
      ensures value == Found(chains[Index(HashOf(KeyBytes(key, keyLen)), length)], key, keyLen)
      ensures forall e :: e in All() ==> e.Sound()
      ensures value == NULL <==> forall e :: e in All() ==> !e.Matches(key, keyLen, HashOf(KeyBytes(key, keyLen)))
      ensures value != NULL ==>
        exists e :: e in All() && e.Matches(key, keyLen, HashOf(KeyBytes(key, keyLen))) && value == e.value
    {
      hide NoDup, Flatten, HashOf, Hit, Found, Index, Prime, LoadLimit, Linked;
      ghost var all := All();
      PlacedAll(chains);
      OnlyInBucket(chains, key, keyLen);
      FoundExactly(all, key, keyLen);
      SoundHits(all, key, keyLen);
      var hash;
      if keyLen == -1 {
        hash := HashNul(key);
      } else {
        hash := HashLen(key, keyLen);
      }
      var index := Index(hash, length);
      var entry := entries[index];
      ghost var rest := chains[index];
      hide Placed;
      assert forall e :: e in rest ==> e in all by { assert index < |chains|; }
      while entry != null
        invariant Linked(entry, rest)
        invariant forall e :: e in rest ==> e in all
        invariant Found(rest, key, keyLen) == Found(chains[index], key, keyLen)
        decreases |rest|
      {
        LinkedEmpty(entry, rest);
        LinkedTail(entry, rest);
        FoundStep(rest, key, keyLen);
        assert entry in all;
        if entry.Matches(key, keyLen, hash) {
          return entry.value;
        }
        entry := entry.next;
        rest := rest[1..];
      }
      LinkedEmpty(entry, rest);
      FoundStep(rest, key, keyLen);
      value := NULL;
    }
  }

  /** The next prime leaves room for one entry more than the old limit. */
  lemma {:induction false} GrowthRoom(pindex: nat)
    requires pindex < PRIME_TABLE_LENGTH - 1
    ensures LoadLimit(Prime(pindex)) + 1 <= LoadLimit(Prime(pindex + 1))
  {
  }

  lemma {:induction false} SameSize(s: seq<Entry>, t: seq<Entry>)
    requires multiset(s) == multiset(t)
    ensures |s| == |t|
  {
    assert |multiset(s)| == |s| && |multiset(t)| == |t|;
  }

  lemma {:induction false} PushSize(s: seq<Entry>, t: seq<Entry>, e: Entry)
    requires multiset(t) == multiset(s) + multiset{e}
    ensures |t| == |s| + 1
  {
    assert |multiset(s)| == |s| && |multiset(t)| == |t|;
  }

  lemma {:induction false} StartCollects(a: array<Entry?>)
    requires a.Length > 0 && forall k :: 0 <= k < a.Length ==> a[k] == null
    ensures Collects(a, [])
  {
  }

  lemma {:induction false} CollectsBuckets(a: array<Entry?>, s: seq<Entry>)
    requires a.Length > 0 && Collects(a, s)
    ensures forall k :: 0 <= k < a.Length ==> Linked(a[k], Buckets(s, a.Length)[k])
  {
    hide Linked, Collected;
  }

  lemma {:induction false} FlattenNothing(cs: seq<seq<Entry>>, done: seq<Entry>)
    ensures done + Flatten(cs[|cs|..]) == done
  {
  }

  /** The next bucket's entries come after those already moved, and are none of the others'. */
  lemma {:induction false} MoveOne(cs: seq<seq<Entry>>, done: seq<Entry>, i: nat)
    requires i < |cs| && Placed(cs) && done + Flatten(cs[i..]) == Flatten(cs)
    ensures NoDup(done + cs[i])
    ensures done + cs[i] + Flatten(cs[i + 1..]) == Flatten(cs)
    ensures forall b, e :: i < b < |cs| && e in cs[b] ==> e !in cs[i]
  {
    hide Index;
    PlacedAll(cs);
    PlacedApart(cs);
    assert cs[i..][0] == cs[i] && cs[i..][1..] == cs[i + 1..];
    assert forall j :: 0 <= j < |done + cs[i]| ==> (done + cs[i])[j] == Flatten(cs)[j];
  }

  lemma {:induction false} LastPrime()
    ensures Prime(PRIME_TABLE_LENGTH - 1) > 0x4000_0000
  {
  }

  // ---------------------------------------------------------------------------
  // The table as a finite map, when keys are stored once, with a length and without a NUL.
  // ---------------------------------------------------------------------------

  /** The bytes an entry was stored under. */
  ghost function Name(e: Entry): (k: seq<Byte>) {
    if KeyArg(e.key, e.keyLen) then KeyBytes(e.key, e.keyLen) else []
  }

  ghost predicate Keyed(e: Entry) {
    e.Sound() && e.keyLen >= 0 && 0 !in Name(e)
  }

  ghost predicate Represents(m: map<seq<Byte>, Value>, s: seq<Entry>) {
    && (forall e :: e in s ==> Keyed(e) && Name(e) in m && m[Name(e)] == e.value)
    && (forall e, e' :: e in s && e' in s && e != e' ==> Name(e) != Name(e'))
    && (forall k :: k in m ==> exists e :: e in s && Name(e) == k)
  }

  lemma {:induction false} EmptyMap()
    ensures Represents(map[], [])
  {
  }

  /** A table for at least `minLength` buckets: the smallest prime of the list above it. */
  method Create(minLength: nat) returns (t: Table?)
    ensures t == null <==> minLength > 0x4000_0000
    ensures t != null ==>
      && fresh(t) && fresh(t.entries) && t.Valid() && t.All() == [] && Represents(map[], t.All())
      && t.length > minLength && forall i :: 0 <= i < t.primeIndex ==> Prime(i) <= minLength
  {
    if minLength > 0x4000_0000 {
      return null;
    }
    var pindex := 0;
    LastPrime();
    while Prime(pindex) <= minLength
      invariant 0 <= pindex < PRIME_TABLE_LENGTH
      invariant forall i :: 0 <= i < pindex ==> Prime(i) <= minLength
      decreases PRIME_TABLE_LENGTH - pindex
    {
      pindex := pindex + 1;
    }
    t := new Table(pindex);
    EmptyMap();
  }

  /** Storing a new key adds one binding. */
  lemma {:induction false} StoreBinds(m: map<seq<Byte>, Value>, s: seq<Entry>, t: seq<Entry>, e: Entry)
    requires Represents(m, s) && multiset(t) == multiset(s) + multiset{e}
    requires Keyed(e) && Name(e) !in m
    ensures Represents(m[Name(e) := e.value], t)
  {
    hide Keyed, Name;
    assert forall x :: x in t ==> x in multiset(t);
    assert forall x :: x in s ==> x in multiset(t);
    assert e in multiset(t);
    var bound := m[Name(e) := e.value];
    forall k | k in bound ensures exists x :: x in t && Name(x) == k {
      if k == Name(e) {
        assert e in t;
      } else {
        var x :| x in s && Name(x) == k;
        assert x in t;
      }
    }
  }

  /** On an entry stored with a length and without a NUL, the test compares the keys,
      whether the argument comes with a length or ends in a NUL. */
  lemma {:induction false} MatchesByName(e: Entry, key: seq<Byte>, keyLen: int)
    requires Keyed(e) && KeyArg(key, keyLen)
    ensures e.Matches(key, keyLen, HashOf(KeyBytes(key, keyLen))) <==> Name(e) == KeyBytes(key, keyLen)
  {
    hide HashOf;
    CutWhole(e.key[..e.keyLen]);
    if keyLen == -1 {
      if e.key[e.keyLen] != 0 { NulInPrefix(e.key, e.keyLen); }
      CutAt(e.key, e.keyLen);
    } else {
      CutWhole(key[..keyLen]);
    }
  }

  lemma {:induction false} NulInPrefix(s: seq<Byte>, n: nat)
    requires n == |s| - 1 && 0 in s && s[n] != 0
    ensures 0 in s[..n]
  {
    var i :| 0 <= i < |s| && s[i] == 0;
    assert s[..n][i] == 0;
  }

  /** What a fetch returns is the lookup in the map; the two forms of lookup agree. */
  lemma {:induction false} FetchIsLookup(
    m: map<seq<Byte>, Value>, s: seq<Entry>, key: seq<Byte>, keyLen: int, value: nat)
    requires Represents(m, s) && KeyArg(key, keyLen)
    requires value == NULL <==> forall e :: e in s ==> !e.Matches(key, keyLen, HashOf(KeyBytes(key, keyLen)))
    requires value != NULL ==>
      exists e :: e in s && e.Matches(key, keyLen, HashOf(KeyBytes(key, keyLen))) && value == e.value
    ensures value == if KeyBytes(key, keyLen) in m then m[KeyBytes(key, keyLen)] else NULL
  {
    hide HashOf, KeyBytes, Name;
    forall e | e in s
      ensures e.Matches(key, keyLen, HashOf(KeyBytes(key, keyLen))) <==> Name(e) == KeyBytes(key, keyLen)
    {
      MatchesByName(e, key, keyLen);
    }
  }

  /** Adds a name that is not there yet. */
  method AddName(t: Table, item: seq<Byte>, dummy: Value, ghost m: map<seq<Byte>, Value>)
    requires t.Valid() && Represents(m, t.All()) && 0 !in item
    modifies t, t.entries, set e | e in t.All()
    ensures t.Valid() && Represents(if item in m then m else m[item := dummy], t.All())
    ensures t.entries == old(t.entries) || fresh(t.entries)
    ensures forall e :: e in t.All() ==> e in old(t.All()) || fresh(e)
  {
    hide HashOf, Name, Keyed, Represents, Flatten;
    ghost var before := t.All();
    var found := t.Fetch(item, |item|);
    FetchIsLookup(m, before, item, |item|, found);
    assert KeyBytes(item, |item|) == item;
    if found == NULL {
      ghost var e := t.Store(item, |item|, dummy);
      NameOf(e, item);
      StoreBinds(m, before, t.All(), e);
      forall x | x in t.All() ensures x in before || x == e {
        assert x in multiset(t.All());
      }
    }
  }

  /** Adds names that are not there yet, each with the same value. Any number of expansions may happen. */
  method UpdateList(t: Table, items: seq<seq<Byte>>, dummy: Value, ghost m: map<seq<Byte>, Value>)
    returns (ghost m': map<seq<Byte>, Value>)
    requires t.Valid() && Represents(m, t.All())
    requires forall i :: 0 <= i < |items| ==> 0 !in items[i]
    modifies t, t.entries, set e | e in t.All()
    ensures t.Valid() && Represents(m', t.All())
    ensures m' == map k | k in m.Keys + (set x | x in items) :: if k in m then m[k] else dummy
  {
    hide Represents, Flatten, Index, Placed, Linked, LoadLimit, Prime;
    m' := m;
    var i := 0;
    while i < |items|
      invariant 0 <= i <= |items|
      invariant t.Valid() && Represents(m', t.All())
      invariant t.entries == old(t.entries) || fresh(t.entries)
      invariant forall e :: e in t.All() ==> e in old(t.All()) || fresh(e)
      invariant m' == map k | k in m.Keys + (set x | x in items[..i]) :: if k in m then m[k] else dummy
    {
      AddName(t, items[i], dummy, m');
      m' := if items[i] in m' then m' else m'[items[i] := dummy];
      assert items[..i + 1] == items[..i] + [items[i]];
      i := i + 1;
    }
    assert items[..i] == items;
  }

  lemma {:induction false} NameOf(e: Entry, item: seq<Byte>)
    requires e.Sound() && e.keyLen == |item| && KeyBytes(e.key, |item|) == item && 0 !in item
    ensures Keyed(e) && Name(e) == item
  {
  }
}
