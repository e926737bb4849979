/** The stringprep port command: decode, map, order, compose, check, encode. */
module Stringprep {
  import opened CanonicalOrdering
  import opened UnicodeTables
  import opened Composition
  import opened Utf8
  import opened Mapping

  /** The preparation commands; `Other` is any command code the switch does not name. */
  datatype Command = Lowercase | Nameprep | Nodeprep | Resourceprep | Other

  predicate Lowers(command: Command) {
    command.Lowercase? || command.Nameprep? || command.Nodeprep?
  }

  predicate Prohibited(command: Command, info: CharInfo) {
    match command
    case Lowercase => info.ac
    case Nameprep => info.ac
    case Nodeprep => info.ac || info.c11 || info.c21 || info.xnp
    case Resourceprep => info.ac || info.c21
    case Other => false
  }

  // ---------------------------------------------------------------------------
  // What a reply must be.
  // ---------------------------------------------------------------------------

  ghost predicate HasRandAL(t: Tables, s: seq<int>) {
    exists i :: 0 <= i < |s| && t.info(s[i]).d1
  }

  ghost predicate HasL(t: Tables, s: seq<int>) {
    exists i :: 0 <= i < |s| && t.info(s[i]).d2
  }

  ghost predicate NoneProhibited(t: Tables, command: Command, s: seq<int>) {
    forall i :: 0 <= i < |s| ==> !Prohibited(command, t.info(s[i]))
  }

  /** Section 6 of RFC 3454: a string with a RandALCat character starts and ends with one
      and holds no LCat character. */
  ghost predicate BidiOk(t: Tables, s: seq<int>) {
    HasRandAL(t, s) ==> t.info(s[0]).d1 && t.info(s[|s| - 1]).d1 && !HasL(t, s)
  }

  ghost predicate Acceptable(t: Tables, command: Command, s: seq<int>) {
    NoneProhibited(t, command, s) && BidiOk(t, s)
  }

  ghost function Normalized(t: Tables, s: seq<int>): (r: seq<int>) {
    ComposeAll(t, [], Reorder(t.cclass, s))
  }

  ghost function Prepared(t: Tables, command: Command, buf: seq<Byte>): (reply: seq<Byte>)
    requires Sound(t)
    ensures reply != []
  {
    match Decode(buf)
    case Malformed => [0]
    case Text(s) =>
      DecodedInRange(buf);
      var mapped := MapAll(t, Lowers(command), s);
      if mapped == [] then [1]
      else
        var out := Normalized(t, mapped);
        NormalizedInRange(t, mapped, Lowers(command), s);
        if Acceptable(t, command, out) then [1] + Encode(out) else [0]
  }

  lemma {:induction false} DecodedInRange(buf: seq<Byte>)
    ensures Decode(buf).Text? ==> CodePoints(Decode(buf).chars)
  {
    if Decode(buf).Text? { DecodeThenEncode(buf); }
  }

  lemma {:induction false} NormalizedInRange(t: Tables, mapped: seq<int>, tolower: bool, s: seq<int>)
    requires Sound(t) && CodePoints(s) && mapped == MapAll(t, tolower, s)
    ensures CodePoints(mapped) && CodePoints(Normalized(t, mapped))
  {
    MappedInRange(t, tolower, s);
    ReorderInRange(t.cclass, mapped);
    CompositionInRange(t, [], Reorder(t.cclass, mapped));
  }

  lemma {:induction false} ReorderInRange(ccc: Classes, s: seq<int>)
    requires CodePoints(s)
    ensures CodePoints(Reorder(ccc, s))
  {
    ReorderPermutes(ccc, s);
    forall i | 0 <= i < |s| ensures CodePoint(Reorder(ccc, s)[i]) {
      assert Reorder(ccc, s)[i] in multiset(Reorder(ccc, s));
      assert Reorder(ccc, s)[i] in multiset(s);
    }
  }

  // ---------------------------------------------------------------------------
  // The buffers. Each write is inside the capacity because a full buffer more than
  // doubles first.
  // ---------------------------------------------------------------------------

  class CodePointBuffer {
    var data: array<int>
    var pos: nat

    ghost predicate Valid() reads this { pos <= data.Length }

    ghost function Contents(): seq<int>
      requires Valid()
      reads this, data
    {
      data[..pos]
    }

    constructor (size: nat)
      ensures Valid() && Contents() == [] && fresh(data)
    {
      data := new int[size];
      pos := 0;
    }

    method Add(c: int)
      requires Valid()
      modifies this, data
      ensures Valid() && Contents() == old(Contents()) + [c]
      ensures data == old(data) || fresh(data)
      ensures data.Length == old(if pos >= data.Length then 2 * data.Length + 1 else data.Length)
    {
      if pos >= data.Length {
        var bigger := new int[2 * data.Length + 1];
        forall i | 0 <= i < pos { bigger[i] := data[i]; }
        data := bigger;
      }
      data[pos] := c;
      pos := pos + 1;
    }

    /** Appends a decomposition; `j'` is what that does to the caller's loop index. */
    method AddDecomp(t: Tables, c: int, j: nat) returns (j': nat)
      requires Valid()
      modifies this, data
      ensures Valid() && Contents() == old(Contents()) + Decomp(t, c)
      ensures data == old(data) || fresh(data)
      ensures j' == if t.decomp(c).Into? then |t.decomp(c).chars| else j
    {
      j' := j;
      match t.decomp(c) {
        case Itself =>
          Add(c);
        case Into(chars) =>
          j' := 0;
          while j' < |chars|
            invariant j' <= |chars| && Valid() && Contents() == old(Contents()) + chars[..j']
            invariant data == old(data) || fresh(data)
          {
            Add(chars[j']);
            j' := j' + 1;
          }
      }
    }
  }

  class ByteBuffer {
    var data: array<Byte>
    var pos: nat

    ghost predicate Valid() reads this { 0 < pos <= data.Length }

    ghost function Contents(): seq<Byte>
      requires Valid()
      reads this, data
    {
      data[..pos]
    }

    constructor (size: nat)
      requires size > 0
      ensures Valid() && Contents() == [0] && fresh(data)
    {
      data := new Byte[size];
      pos := 1;
      new;
      data[0] := 0;
    }

    /** Writes the `n` bytes of one character, after growing the buffer if they do not fit. */
    method Append(bytes: seq<Byte>)
      requires Valid() && bytes != []
      modifies this, data
      ensures Valid() && Contents() == old(Contents()) + bytes
      ensures data == old(data) || fresh(data)
      ensures data.Length ==
        old(if pos + (|bytes| - 1) >= data.Length then 2 * data.Length + |bytes| else data.Length)
    {
      var n := |bytes|;
      if pos + (n - 1) >= data.Length {
        var bigger := new Byte[2 * data.Length + n];
        forall i | 0 <= i < pos { bigger[i] := data[i]; }
        data := bigger;
      }
      forall i | 0 <= i < n { data[pos + i] := bytes[i]; }
      pos := pos + n;
    }

    method AddChar(c: nat)
      requires Valid()
      modifies this, data
      ensures Valid() && Contents() == old(Contents()) + EncodeChar(c)
      ensures data == old(data) || fresh(data)
    {
      if c <= 0x7F {
        Append([c]);
      } else if c <= 0x7FF {
        Append([Shr6(c) + 0xC0, Low6(c) + 0x80]);
      } else if c <= 0xFFFF {
        Append([Shr12(c) + 0xE0, Low6(Shr6(c)) + 0x80, Low6(c) + 0x80]);
      } else if c <= 0x1FFFFF {
        Append([Shr18(c) + 0xF0, Low6(Shr12(c)) + 0x80, Low6(Shr6(c)) + 0x80, Low6(c) + 0x80]);
      }
    }
  }

  // ---------------------------------------------------------------------------
  // The control function.
  // ---------------------------------------------------------------------------

  ghost function Prepend(s: seq<int>, d: Decoded): (r: Decoded) {
    match d
    case Malformed => Malformed
    case Text(chars) => Text(s + chars)
  }

  /** The loop over the input: `none` when it is malformed, else the mapped characters. */
  method DecodeAndMap(t: Tables, tolower: bool, buf: seq<Byte>) returns (ok: bool, str32: CodePointBuffer)
    requires Sound(t)
    ensures ok == Decode(buf).Text?
    ensures fresh(str32) && fresh(str32.data) && str32.Valid()
    ensures ok ==> CodePoints(Decode(buf).chars) && str32.Contents() == MapAll(t, tolower, Decode(buf).chars)
  {
    hide Sound, Mapped, MapAll, Decode, DecodeUnit, Prepend;
    str32 := new CodePointBuffer(|buf| + 1);
    Starts(t, tolower, buf);
    ghost var seen: seq<int> := [];
    var i := 0;
    while i < |buf|
      invariant i <= |buf|
      invariant fresh(str32) && fresh(str32.data) && str32.Valid()
      invariant CodePoints(seen) && str32.Contents() == MapAll(t, tolower, seen)
      invariant Decode(buf) == Prepend(seen, Decode(buf[i..]))
    {
      DecodeTurn(buf[i..], seen);
      match DecodeUnit(buf[i..]) {
        case Bad =>
          return false, str32;
        case Char(uc, size) =>
          MapChar(t, tolower, uc, str32);
          MapAllSnoc(t, tolower, seen, uc);
          assert buf[i..][size..] == buf[i + size..];
          seen := seen + [uc];
          i := i + size;
      }
    }
    assert buf[i..] == [];
    Finishes(seen);
    ok := true;
  }

  lemma {:induction false} Starts(t: Tables, tolower: bool, buf: seq<Byte>)
    requires Sound(t)
    ensures MapAll(t, tolower, []) == [] && Decode(buf) == Prepend([], Decode(buf[0..]))
  {
    assert buf[0..] == buf;
    if Decode(buf).Text? { assert [] + Decode(buf).chars == Decode(buf).chars; }
  }

  lemma {:induction false} Finishes(seen: seq<int>)
    ensures Prepend(seen, Decode([])) == Text(seen)
  {
    assert seen + [] == seen;
  }

  lemma {:induction false} DecodeTurn(rest: seq<Byte>, seen: seq<int>)
    requires rest != []
    ensures var u := DecodeUnit(rest);
            Prepend(seen, Decode(rest)) ==
              if u.Char? then Prepend(seen + [u.uc], Decode(rest[u.size..])) else Malformed
  {
    var u := DecodeUnit(rest);
    if u.Char? && Decode(rest).Text? {
      assert seen + ([u.uc] + Decode(rest[u.size..]).chars) == seen + [u.uc] + Decode(rest[u.size..]).chars;
    }
  }

  /** The mapping of one character, with the loop index of the folding loop shared. */
  method MapChar(t: Tables, tolower: bool, uc: int, str32: CodePointBuffer)
    requires Sound(t) && CodePoint(uc) && str32.Valid()
    modifies str32, str32.data
    ensures str32.Valid() && str32.Contents() == old(str32.Contents()) + Mapped(t, tolower, uc)
    ensures str32.data == old(str32.data) || fresh(str32.data)
  {
    var info := t.info(uc);
    if !info.b1 {
      if tolower {
        if !info.mc {
          var _ := str32.AddDecomp(t, uc + info.delta, 0);
        } else {
          assert SoundInfo(t, info);
          MapFolded(t, info.multi, str32);
        }
      } else {
        var _ := str32.AddDecomp(t, uc, 0);
      }
    }
  }

  lemma {:induction false} Regroup(a: seq<int>, b: seq<int>, c: seq<int>)
    ensures a + (b + c) == a + b + c
  {
  }

  method MapFolded(t: Tables, multi: seq<int>, str32: CodePointBuffer)
    requires forall k :: 0 <= k < |multi| && t.decomp(multi[k]).Into? ==> k < |t.decomp(multi[k]).chars|
    requires str32.Valid()
    modifies str32, str32.data
    ensures str32.Valid() && str32.Contents() == old(str32.Contents()) + Folded(t, multi, 0)
    ensures str32.data == old(str32.data) || fresh(str32.data)
  {
    ghost var copied: seq<int> := [];
    var j := 0;
    while j < |multi|
      invariant str32.Valid() && (str32.data == old(str32.data) || fresh(str32.data))
      invariant str32.Contents() == old(str32.Contents()) + copied
      invariant copied + Folded(t, multi, j) == Folded(t, multi, 0)
      decreases |multi| - j
    {
      ghost var d, from := Decomp(t, multi[j]), j;
      // The source counts from 1: it steps an index that the copy may have reset.
      j := str32.AddDecomp(t, multi[j], j + 1);
      Regroup(copied, d, Folded(t, multi, j));
      Regroup(old(str32.Contents()), copied, d);
      copied := copied + d;
    }
    assert copied + [] == copied;
  }

  /** One more character checked. */
  lemma {:induction false} CheckNext(t: Tables, command: Command, s: seq<int>, i: nat)
    requires i < |s|
    ensures var info := t.info(s[i]);
            && (HasRandAL(t, s[..i + 1]) <==> HasRandAL(t, s[..i]) || info.d1)
            && (HasL(t, s[..i + 1]) <==> HasL(t, s[..i]) || info.d2)
            && (NoneProhibited(t, command, s[..i + 1]) <==>
                  NoneProhibited(t, command, s[..i]) && !Prohibited(command, info))
            && (Prohibited(command, info) ==> !NoneProhibited(t, command, s))
  {
    hide Prohibited;
    assert s[..i + 1] == s[..i] + [s[i]];
    assert (s[..i] + [s[i]])[i] == s[i];
  }

  lemma {:induction false} NothingYet(t: Tables, command: Command, s: seq<int>)
    ensures CodePoints(s[..0]) && Encode(s[..0]) == []
    ensures NoneProhibited(t, command, s[..0]) && !HasRandAL(t, s[..0]) && !HasL(t, s[..0])
  {
  }

  lemma {:induction false} EncodeNext(s: seq<int>, i: nat)
    requires i < |s| && CodePoints(s)
    ensures Encode(s[..i + 1]) == Encode(s[..i]) + EncodeChar(s[i])
  {
    EncodeSnoc(s[..i], s[i]);
    assert s[..i] + [s[i]] == s[..i + 1];
  }

  /** The final loop: checks every character and encodes as it goes. */
  method CheckAndEncode(t: Tables, command: Command, str: array<int>, len: nat, rstring: ByteBuffer) returns (ok: bool)
    requires 0 < len <= str.Length && CodePoints(str[..len])
    requires rstring.Valid() && rstring.Contents() == [0] && str as object != rstring.data
    modifies rstring, rstring.data
    ensures rstring.Valid()
    ensures ok == Acceptable(t, command, old(str[..len]))
    ensures ok ==> rstring.Contents() == [1] + Encode(old(str[..len]))
    ensures !ok ==> rstring.data[0] == 0
  {
    hide Prohibited, EncodeChar, Encode, HasRandAL, HasL, NoneProhibited;
    ghost var s := str[..len];
    NothingYet(t, command, s);
    var firstRal := t.info(str[0]).d1;
    var lastRal, haveRal, haveL := false, false, false;
    ok := false;
    var i := 0;
    while i < len
      invariant i <= len && str[..len] == s
      invariant rstring.Valid() && (rstring.data == old(rstring.data) || fresh(rstring.data))
      invariant rstring.Contents() == [0] + Encode(s[..i])
      invariant NoneProhibited(t, command, s[..i])
      invariant i > 0 ==> lastRal == t.info(s[i - 1]).d1
      invariant haveRal == HasRandAL(t, s[..i]) && haveL == HasL(t, s[..i])
    {
      var c := str[i];
      assert c == s[i];
      var info := t.info(c);
      CheckNext(t, command, s, i);
      if Prohibited(command, info) { return; }
      lastRal := info.d1;
      haveRal := haveRal || lastRal;
      haveL := haveL || info.d2;
      EncodeNext(s, i);
      rstring.AddChar(c);
      i := i + 1;
    }
    assert s[..i] == s;
    if haveRal && (!firstRal || !lastRal || haveL) { return; }
    rstring.data[0] := 1;
    ok := true;
  }

  method Control(t: Tables, command: Command, buf: seq<Byte>) returns (reply: seq<Byte>)
    requires Sound(t)
    ensures reply == Prepared(t, command, buf)
  {
    hide Sound, ComposeAll, MergeCount, Reorder, MapAll, Decode, Acceptable, Encode, Ordered, CodePoints;
    var rstring := new ByteBuffer(|buf| + 1);
    var ok, str32 := DecodeAndMap(t, Lowers(command), buf);
    if !ok {
      return rstring.data[..1];
    }
    if str32.pos == 0 {
      rstring.data[0] := 1;
      return rstring.data[..1];
    }
    ghost var mapped := str32.Contents();
    NormalizedInRange(t, mapped, Lowers(command), Decode(buf).chars);
    CanonicalOrder(t.cclass, str32.data, str32.pos);
    ReorderIsOrdered(t.cclass, mapped);
    var len := ComposeInPlace(t, str32.data, str32.pos);
    ok := CheckAndEncode(t, command, str32.data, len, rstring);
    reply := if ok then rstring.data[..rstring.pos] else rstring.data[..1];
  }

  // ---------------------------------------------------------------------------
  // What the replies promise.
  // ---------------------------------------------------------------------------

  /** The mapped characters of a well-formed input. */
  ghost function MappedInput(t: Tables, command: Command, buf: seq<Byte>): (r: seq<int>)
    requires Sound(t) && Decode(buf).Text?
  {
    DecodedInRange(buf);
    MapAll(t, Lowers(command), Decode(buf).chars)
  }

  /** A reply is accepted exactly when no character of the normalized string is prohibited
      and the bidi rule holds, and an accepted reply decodes to the normalized string. */
  lemma {:induction false} AcceptedExactly(t: Tables, command: Command, buf: seq<Byte>)
    requires Sound(t)
    ensures var reply := Prepared(t, command, buf);
            if Decode(buf).Malformed? then reply == [0]
            else if MappedInput(t, command, buf) == [] then reply == [1]
            else
              var out := Normalized(t, MappedInput(t, command, buf));
              if Acceptable(t, command, out) then reply[0] == 1 && Decode(reply[1..]) == Text(out) && out != []
              else reply == [0]
  {
    if Decode(buf).Text? && MappedInput(t, command, buf) != [] {
      DecodedInRange(buf);
      var mapped := MappedInput(t, command, buf);
      var out := Normalized(t, mapped);
      NormalizedInRange(t, mapped, Lowers(command), Decode(buf).chars);
      EncodeThenDecode(out);
      NotEmptied(t, [], Reorder(t.cclass, mapped));
      assert ([1] + Encode(out))[1..] == Encode(out);
    }
  }

  /** Which characters each command prohibits, and the bidi rule: an input is accepted exactly when
      its normalized string holds none of them and keeps the rule. */
  lemma {:induction false} CommandsProhibit(t: Tables, command: Command, buf: seq<Byte>)
    requires Sound(t) && Decode(buf).Text? && MappedInput(t, command, buf) != []
    ensures var out := Normalized(t, MappedInput(t, command, buf));
      Prepared(t, command, buf)[0] == 1 <==>
        && (command == Lowercase || command == Nameprep ==> forall i :: 0 <= i < |out| ==> !t.info(out[i]).ac)
        && (command == Nodeprep ==> forall i :: 0 <= i < |out| ==>
              !t.info(out[i]).ac && !t.info(out[i]).c11 && !t.info(out[i]).c21 && !t.info(out[i]).xnp)
        && (command == Resourceprep ==> forall i :: 0 <= i < |out| ==> !t.info(out[i]).ac && !t.info(out[i]).c21)
        && ((exists i :: 0 <= i < |out| && t.info(out[i]).d1) ==>
              && t.info(out[0]).d1 && t.info(out[|out| - 1]).d1
              && forall i :: 0 <= i < |out| ==> !t.info(out[i]).d2)
  {
    hide Prepared, Normalized, Decode, MappedInput;
    AcceptedExactly(t, command, buf);
  }

  /** Three commands fold case, the others only map to nothing and decompose. */
  lemma {:induction false} CommandsFold(t: Tables, command: Command, buf: seq<Byte>)
    requires Sound(t) && Decode(buf).Text?
    ensures var (s, mapped) := (Decode(buf).chars, MappedInput(t, command, buf));
      && CodePoints(s)
      && (command == Lowercase || command == Nameprep || command == Nodeprep ==>
            |mapped| <= |IntendedAll(t, true, s)|
            && (mapped == IntendedAll(t, true, s) <==> forall i :: 0 <= i < |s| ==> MapsInStep(t, true, s[i])))
      && (command == Resourceprep || command == Other ==> mapped == IntendedAll(t, false, s))
  {
    DecodedInRange(buf);
    MapsAsIntendedExactly(t, Lowers(command), Decode(buf).chars);
  }

  /** With plain entries for U+0041 and U+0061, the one folding to the other: `A` is prepared to
      `a` by the commands that fold and to itself by the others. */
  lemma {:induction false} CaseFolded(t: Tables, command: Command)
    requires Sound(t)
    requires var plain := CharInfo(false, false, false, false, false, false, false, false, [], 0);
      t.info(0x41) == plain.(delta := 32) && t.info(0x61) == plain
    requires t.decomp(0x41) == t.decomp(0x61) == Itself
    ensures Prepared(t, command, [0x41]) ==
      if command == Resourceprep || command == Other then [1, 0x41] else [1, 0x61]
  {
    var s := [0x41];
    var c := if Lowers(command) then 0x61 else 0x41;
    assert s[1..] == [] && [0x41] + [] == s;
    assert Decode([0x41]) == Text(s);
    assert MapAll(t, Lowers(command), s) == Mapped(t, Lowers(command), 0x41) + [];
    assert Mapped(t, Lowers(command), 0x41) == [c];
    OneCharNormalized(t, c);
    assert [c][1..] == [] && Encode([c]) == EncodeChar(c) + [];
    hide Reorder, ComposeAll, Sound, Decode, Mapped, MapAll;
    assert Acceptable(t, command, [c]);
    assert [1] + [c] == [1, c];
  }

  lemma {:induction false} OneCharNormalized(t: Tables, c: int)
    ensures Normalized(t, [c]) == [c]
  {
    assert [c][..0] == [] && [c][1..] == [] && [] + [c] == [c];
    assert LastStarter(t.cclass, []) == -1;
    assert ComposeAll(t, [], [c]) == ComposeAll(t, [c], []);
  }

  /** Input that spells no characters gets byte 0, whatever the command; so does any accepted text
      with bytes after it that start no character. */
  lemma {:induction false} MalformedRefused(t: Tables, command: Command, a: seq<Byte>, b: seq<Byte>)
    requires Sound(t)
    ensures (forall s :: !Spells(a, s)) ==> Prepared(t, command, a) == [0]
    ensures Decode(a).Text? && StartsBadly(b) ==> Prepared(t, command, a + b) == [0]
  {
    hide Spells, StartsBadly, MapAll;
    MalformedExactly(a);
    if Decode(a).Text? && StartsBadly(b) { BadStartRejected(a, b); }
  }

  /** A stray tail byte before a letter. */
  lemma {:induction false} StrayTailRefused(t: Tables)
    requires Sound(t)
    ensures Prepared(t, Lowercase, [0x80, 0x41]) == [0]
  {
    assert Decode([]) == Text([]) && [] + [0x80, 0x41] == [0x80, 0x41];
    MalformedRefused(t, Lowercase, [], [0x80, 0x41]);
  }

  lemma {:induction false} NotEmptied(t: Tables, kept: seq<int>, rest: seq<int>)
    requires kept + rest != []
    ensures ComposeAll(t, kept, rest) != []
    decreases |rest|
  {
    if rest != [] {
      var c, l := rest[0], LastStarter(t.cclass, kept);
      if Merges(t, kept, c) {
        NotEmptied(t, kept[l := Compose(t, kept[l], c)], rest[1..]);
      } else {
        NotEmptied(t, kept + [c], rest[1..]);
      }
    }
  }

  /** Inputs that map to canonically equivalent strings get the same reply. */
  lemma {:induction false} EquivalentInputsAgree(t: Tables, command: Command, a: seq<Byte>, b: seq<Byte>)
    requires Sound(t) && Decode(a).Text? && Decode(b).Text?
    requires Equivalent(t.cclass, MappedInput(t, command, a), MappedInput(t, command, b))
    ensures Prepared(t, command, a) == Prepared(t, command, b)
  {
    var x, y := MappedInput(t, command, a), MappedInput(t, command, b);
    Confluence(t.cclass, x, y);
    assert |Reorder(t.cclass, x)| == |Reorder(t.cclass, y)|;
  }

  /** An accepted string is canonically equivalent to the mapped input exactly when that holds
      no U+11A7 after an LV syllable or after a leading consonant and a vowel. */
  lemma {:induction false} AcceptedMeansEquivalent(t: Tables, canon: Canon, command: Command, buf: seq<Byte>)
    requires Sound(t) && HangulByRule(t) && Inverts(t, canon) && Decode(buf).Text?
    requires MarksAtomic(t, canon, MappedInput(t, command, buf)) && MappedInput(t, command, buf) != []
    requires Prepared(t, command, buf)[0] == 1
    ensures var (reply, mapped) := (Decode(Prepared(t, command, buf)[1..]), MappedInput(t, command, buf));
      && reply.Text?
      && (Equivalent(t.cclass, Decomposed(canon, reply.chars), Decomposed(canon, mapped)) <==> !Swallowing(mapped))
  {
    hide Sound, HangulByRule, Inverts, Decomposed, ComposeAll, Reorder, Swallowing, Decode;
    hide Acceptable, Equivalent, Prepared, MappedInput;
    AcceptedExactly(t, command, buf);
    NormalizationIsEquivalent(t, canon, MappedInput(t, command, buf));
  }
}
