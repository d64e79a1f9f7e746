/** The card information structure of an SDIO card: printing a tuple chain and
    the parser that reads it back. */
module Cis {
  import opened Prelude
  import opened Words
  import opened FlatDisk

  const CIS_START: nat := 0x0_1000
  const CIS_SIZE: nat := 0x1_7000
  const CCCR_CISPTR: nat := 0x09
  const CCCR_SIZE: nat := 0x100

  const TPL_NULL: byte := 0x00
  const TPL_VERS_1: byte := 0x15
  const TPL_MANFID: byte := 0x20
  const TPL_FUNCID: byte := 0x21
  const TPL_END: byte := 0xff

  /** Strings are kept in a buffer of 256 bytes; the parser stops at 252. */
  const BUF_SIZE: nat := 256
  const SCAN_MAX: nat := 252

  type uint16 = x: int | 0 <= x < 0x1_0000

  /** Tuples of a chain.  Ignored covers unknown codes and known codes with a
      body too short to hold what they announce. */
  datatype Tuple =
    | Null
    | FuncId(func: byte, more: seq<byte>)
    | ManfId(manufacturer: uint16, product: uint16)
    | Vers1(major: byte, minor: byte, strings: seq<seq<byte>>, tail: seq<byte>)
    | Ignored(code: byte, body: seq<byte>)

  predicate Short(code: byte, n: nat)
  {
    ((code == TPL_FUNCID || code == TPL_VERS_1) && n < 2) || (code == TPL_MANFID && n < 4)
  }

  predicate Known(code: byte)
  {
    code == TPL_FUNCID || code == TPL_VERS_1 || code == TPL_MANFID
  }

  predicate IsText(s: seq<byte>)
  {
    forall i :: 0 <= i < |s| ==> s[i] != 0 && s[i] != 0xff
  }

  /** The strings of a VERS_1 tuple, each with its NUL. */
  function Text(ss: seq<seq<byte>>): seq<byte>
  {
    if |ss| == 0 then [] else Text(ss[..|ss| - 1]) + ss[|ss| - 1] + [0]
  }

  predicate WellFormedTuple(t: Tuple)
  {
    match t
    case Null => true
    case FuncId(_, more) => 1 <= |more| <= 254
    case ManfId(_, _) => true
    case Vers1(_, _, ss, tail) =>
      && |ss| <= 4 && (forall k :: 0 <= k < |ss| ==> IsText(ss[k]))
      && (|ss| < 4 ==> |tail| > 0 && tail[0] == 0xff)
      && 2 + |Text(ss)| + |tail| <= 255
    case Ignored(code, body) =>
      code != TPL_NULL && code != TPL_END && |body| <= 255 && (Known(code) ==> Short(code, |body|))
  }

  function Body(t: Tuple): seq<byte>
  {
    match t
    case Null => []
    case FuncId(f, more) => [f] + more
    case ManfId(m, p) => [m % 256, m / 256, p % 256, p / 256]
    case Vers1(major, minor, ss, tail) => [major, minor] + (Text(ss) + tail)
    case Ignored(_, body) => body
  }

  function Code(t: Tuple): byte
  {
    match t
    case Null => TPL_NULL
    case FuncId(_, _) => TPL_FUNCID
    case ManfId(_, _) => TPL_MANFID
    case Vers1(_, _, _, _) => TPL_VERS_1
    case Ignored(code, _) => code
  }

  /** Code and length. */
  function Header(t: Tuple): (h: seq<byte>)
    requires WellFormedTuple(t)
    ensures |h| == 2
  {
    var n: byte := |Body(t)|;
    [Code(t), n]
  }

  function Print(t: Tuple): seq<byte>
    requires WellFormedTuple(t)
  {
    if t.Null? then [TPL_NULL] else Header(t) + Body(t)
  }

  predicate WellFormed(ts: seq<Tuple>)
  {
    forall k :: 0 <= k < |ts| ==> WellFormedTuple(ts[k])
  }

  function PrintChain(ts: seq<Tuple>): seq<byte>
    requires WellFormed(ts)
  {
    if |ts| == 0 then [TPL_END] else Print(ts[0]) + PrintChain(ts[1..])
  }

  // ------------------------------------------------------------------------
  // What a chain means

  /** struct sdmmc_cis; string pointers are offsets into the buffer, -1 is the
      null pointer. */
  datatype CisValue = CisValue(manufacturer: uint16, product: uint16, func: byte, major: byte, minor: byte,
                               buf: seq<byte>, info: seq<int>)
  {
    predicate Valid() { |buf| == BUF_SIZE && |info| == 4 }
  }

  /** Number of strings found, out of ss. */
  function Found(ss: seq<seq<byte>>): nat
  {
    if |Text(ss)| <= SCAN_MAX || |ss| == 0 then |ss| else |ss| - 1
  }

  function Offsets(ss: seq<seq<byte>>, n: nat): (o: seq<int>)
    requires n <= |ss|
    ensures |o| == n
  {
    seq(n, k requires 0 <= k < n => |Text(ss[..k])|)
  }

  function Apply(t: Tuple, v: CisValue): (v': CisValue)
    requires WellFormedTuple(t) && v.Valid()
    ensures v'.Valid()
  {
    match t
    case Null => v
    case FuncId(f, _) => v.(func := f)
    case ManfId(m, p) => v.(manufacturer := m, product := p)
    case Vers1(major, minor, ss, _) =>
      v.(major := major, minor := minor,
         buf := Spliced(v.buf, 0, Text(ss)[..Min(|Text(ss)|, SCAN_MAX)]),
         info := Offsets(ss, Found(ss)) + v.info[Found(ss)..])
    case Ignored(_, _) => v
  }

  function Parsed(ts: seq<Tuple>, v: CisValue): (v': CisValue)
    requires WellFormed(ts) && v.Valid()
    ensures v'.Valid()
  {
    if |ts| == 0 then v else Parsed(ts[1..], Apply(ts[0], v))
  }

  /** The C string that starts at an offset of the buffer. */
  function CString(buf: seq<byte>, at: nat): seq<byte>
    requires at <= |buf|
    decreases |buf| - at
  {
    if at == |buf| || buf[at] == 0 then [] else [buf[at]] + CString(buf, at + 1)
  }

  lemma {:induction false} TextPrefix(ss: seq<seq<byte>>, k: nat)
    requires k < |ss|
    ensures |Text(ss[..k])| + |ss[k]| + 1 <= |Text(ss)|
    ensures Text(ss)[|Text(ss[..k])|..|Text(ss[..k])| + |ss[k]| + 1] == ss[k] + [0]
    ensures Text(ss)[..|Text(ss[..k])|] == Text(ss[..k])
  {
    var n := |ss| - 1;
    if k < n {
      TextPrefix(ss[..n], k);
      assert ss[..n][..k] == ss[..k];
      var a := |Text(ss[..k])|;
      assert Text(ss)[a..a + |ss[k]| + 1] == Text(ss[..n])[a..a + |ss[k]| + 1];
    }
  }

  /** A NUL-terminated text inside a buffer is the C string there. */
  lemma {:induction false} CStringIs(buf: seq<byte>, at: nat, s: seq<byte>)
    requires IsText(s) && at + |s| + 1 <= |buf| && buf[at..at + |s| + 1] == s + [0]
    ensures CString(buf, at) == s
    decreases |s|
  {
    assert buf[at] == (s + [0])[0];
    if |s| > 0 {
      assert buf[at + 1..at + 1 + |s[1..]| + 1] == buf[at..at + |s| + 1][1..];
      CStringIs(buf, at + 1, s[1..]);
    }
  }

  /** Only the last of four strings can lie beyond byte 252. */
  lemma FoundIsFit(ss: seq<seq<byte>>, k: nat)
    requires k < |ss| && |Text(ss)| <= SCAN_MAX + 1
    ensures k < Found(ss) <==> |Text(ss[..k])| + |ss[k]| + 1 <= SCAN_MAX
  {
    hide Text;
    TextPrefix(ss, k);
    var n := |ss| - 1;
    if k < n {
      TextPrefix(ss, n);
      TextPrefix(ss[..n], k);
      assert ss[..n][..k] == ss[..k];
    } else {
      WholeText(ss);
    }
  }

  lemma WholeText(ss: seq<seq<byte>>)
    requires |ss| > 0
    ensures |Text(ss)| == |Text(ss[..|ss| - 1])| + |ss[|ss| - 1]| + 1
  {
  }

  /** String k of a VERS_1 tuple is recovered, NUL-terminated inside the buffer,
      if and only if it ends within the first 252 bytes.  A legal tuple has at
      most 253, so only the last of four strings can be lost. */
  lemma StringsRecovered(t: Tuple, v: CisValue, k: nat)
    requires WellFormedTuple(t) && t.Vers1? && v.Valid() && k < |t.strings|
    ensures k < Found(t.strings) <==> |Text(t.strings[..k])| + |t.strings[k]| + 1 <= SCAN_MAX
    ensures k < Found(t.strings) ==>
      var v' := Apply(t, v);
      && 0 <= v'.info[k] && v'.info[k] + |t.strings[k]| < BUF_SIZE
      && CString(v'.buf, v'.info[k]) == t.strings[k]
    ensures Found(t.strings) == |t.strings| <==> |Text(t.strings)| <= SCAN_MAX
    ensures Found(t.strings) < |t.strings| ==> |t.strings| == 4 && |Text(t.strings)| == 253
  {
    hide Text, CString, IsText;
    var ss := t.strings;
    FoundIsFit(ss, k);
    if k < Found(ss) {
      TextPrefix(ss, k);
      var a, m := |Text(ss[..k])|, Min(|Text(ss)|, SCAN_MAX);
      SplicedPart(v.buf, Text(ss)[..m], a, |ss[k]| + 1);
      assert Text(ss)[..m][a..a + |ss[k]| + 1] == Text(ss)[a..a + |ss[k]| + 1];
      CStringIs(Apply(t, v).buf, a, ss[k]);
    }
  }

  function Letters(n: nat): (s: seq<byte>)
    ensures |s| == n
  {
    seq(n, i => 0x41)
  }

  /** Four strings of 62, 62, 62 and 63 letters: the tuple is legal, and its last
      string is not found. */
  lemma LastStringCanBeLost()
    ensures
      var t := Vers1(1, 0, [Letters(62), Letters(62), Letters(62), Letters(63)], []);
      WellFormedTuple(t) && |Text(t.strings)| == 253 && Found(t.strings) == 3
  {
    hide Letters;
    var ss := [Letters(62), Letters(62), Letters(62), Letters(63)];
    forall k | 0 <= k < 4 ensures IsText(ss[k]) {
      LettersAreText(|ss[k]|);
      assert ss[k] == Letters(|ss[k]|);
    }
    WholeText(ss);
    assert ss[..3] == [Letters(62), Letters(62), Letters(62)];
    WholeText(ss[..3]);
    assert ss[..3][..2] == [Letters(62), Letters(62)];
    WholeText(ss[..3][..2]);
    assert ss[..3][..2][..1] == [Letters(62)];
    WholeText([Letters(62)]);
    assert [Letters(62)][..0] == [];
  }

  lemma LettersAreText(n: nat)
    ensures IsText(Letters(n))
  {
  }

  lemma SplicedPart(buf: seq<byte>, x: seq<byte>, a: nat, n: nat)
    requires a + n <= |x| <= |buf|
    ensures Spliced(buf, 0, x)[a..a + n] == x[a..a + n]
  {
  }

  lemma {:induction false} ParsedAppend(a: seq<Tuple>, b: seq<Tuple>, v: CisValue)
    requires WellFormed(a) && WellFormed(b) && v.Valid()
    ensures WellFormed(a + b)
    ensures Parsed(a + b, v) == Parsed(b, Parsed(a, v))
    decreases |a|
  {
    hide Apply, WellFormedTuple;
    if |a| == 0 {
      assert a + b == b;
    } else {
      assert (a + b)[1..] == a[1..] + b;
      ParsedAppend(a[1..], b, Apply(a[0], v));
    }
  }

  predicate SameKind(t: Tuple, u: Tuple)
  {
    (t.FuncId? && u.FuncId?) || (t.ManfId? && u.ManfId?) || (t.Vers1? && u.Vers1?)
  }

  /** The record holds what the tuple says. */
  predicate Recovered(t: Tuple, v: CisValue)
  {
    match t
    case FuncId(f, _) => v.func == f
    case ManfId(m, p) => v.manufacturer == m && v.product == p
    case Vers1(major, minor, ss, _) => v.major == major && v.minor == minor && StringsIn(ss, v.buf, v.info)
    case _ => true
  }

  predicate StringsIn(ss: seq<seq<byte>>, buf: seq<byte>, info: seq<int>)
  {
    && Found(ss) <= |info|
    && forall k :: 0 <= k < Found(ss) ==> StringIn(ss[k], buf, info[k])
  }

  predicate StringIn(s: seq<byte>, buf: seq<byte>, at: int)
  {
    0 <= at && at + |s| < |buf| && CString(buf, at) == s
  }

  lemma ApplyRecovers(t: Tuple, v: CisValue)
    requires WellFormedTuple(t) && v.Valid()
    ensures Recovered(t, Apply(t, v))
  {
    hide Text, CString, IsText, Offsets, Spliced;
    if t.Vers1? {
      forall k | 0 <= k < Found(t.strings)
        ensures StringIn(t.strings[k], Apply(t, v).buf, Apply(t, v).info[k])
      {
        StringsRecovered(t, v, k);
      }
    }
  }

  /** Later tuples of other kinds leave it alone. */
  lemma {:induction false} OthersKeep(t: Tuple, b: seq<Tuple>, v: CisValue)
    requires WellFormed(b) && v.Valid() && Recovered(t, v)
    requires forall k :: 0 <= k < |b| ==> !SameKind(t, b[k])
    ensures Recovered(t, Parsed(b, v))
    decreases |b|
  {
    hide WellFormedTuple, Text, Found, Offsets, Spliced, StringsIn;
    if |b| > 0 {
      OthersKeep(t, b[1..], Apply(b[0], v));
    }
  }

  /** The last tuple of each kind decides: its numbers, and its strings. */
  lemma {:induction false} LastTupleDecides(a: seq<Tuple>, t: Tuple, b: seq<Tuple>, v: CisValue)
    requires WellFormed(a) && WellFormedTuple(t) && WellFormed(b) && v.Valid()
    requires forall k :: 0 <= k < |b| ==> !SameKind(t, b[k])
    ensures WellFormed(a + [t] + b)
    ensures Recovered(t, Parsed(a + [t] + b, v))
  {
    hide WellFormedTuple, Apply, Recovered;
    ParsedAppend(a, [t] + b, v);
    assert a + [t] + b == a + ([t] + b);
    assert ([t] + b)[1..] == b;
    ApplyRecovers(t, Parsed(a, v));
    OthersKeep(t, b, Apply(t, Parsed(a, v)));
  }

  // ------------------------------------------------------------------------
  // The parser

  /** The registers from reg on hold these bytes. */
  predicate HasAt(space: seq<byte>, reg: nat, p: seq<byte>)
  {
    reg + |p| <= |space| && space[reg..reg + |p|] == p
  }

  lemma HasParts(space: seq<byte>, reg: nat, p: seq<byte>, q: seq<byte>)
    requires HasAt(space, reg, p + q)
    ensures HasAt(space, reg, p) && HasAt(space, reg + |p|, q)
  {
    assert (p + q)[..|p|] == p && (p + q)[|p|..] == q;
    assert space[reg..reg + |p|] == space[reg..reg + |p + q|][..|p|];
    assert space[reg + |p|..reg + |p| + |q|] == space[reg..reg + |p + q|][|p|..];
  }

  /** sdmmc_cisptr: three registers per function, low byte first. */
  method CisPointer(space: seq<byte>, number: nat) returns (reg: nat)
    requires number < 8 && CCCR_CISPTR + 8 * CCCR_SIZE + 3 <= |space|
    ensures reg == LeNat(space[CCCR_CISPTR + number * CCCR_SIZE..CCCR_CISPTR + number * CCCR_SIZE + 3])
  {
    var r := CCCR_CISPTR + number * CCCR_SIZE;
    var b0: int, b1: int, b2: int := space[r], space[r + 1], space[r + 2];
    reg := b0 + b1 * 0x100 + b2 * 0x1_0000;
    ghost var p := space[r..r + 3];
    assert p[1..][1..][1..] == [];
    assert LeNat(p[1..][1..]) == b2;
    assert LeNat(p[1..]) == b1 + 256 * b2;
  }

  class CisRecord {
    var manufacturer: uint16
    var product: uint16
    var func: byte
    var major: byte
    var minor: byte
    const infoBuf: array<byte>
    const info: array<int>

    constructor ()
      ensures Valid() && fresh(infoBuf) && fresh(info)
    {
      manufacturer, product, func, major, minor := 0xffff, 0xffff, 0xff, 0, 0;
      infoBuf := new byte[BUF_SIZE](_ => 0);
      info := new int[4](_ => -1);
    }

    ghost predicate Valid()
    {
      infoBuf.Length == BUF_SIZE && info.Length == 4
    }

    ghost function Value(): (v: CisValue)
      requires Valid()
      reads this, infoBuf, info
      ensures v.Valid()
    {
      CisValue(manufacturer, product, func, major, minor, infoBuf[..], info[..])
    }

    /** The string loop of a VERS_1 tuple, started behind the version bytes. */
    method ReadStrings(space: seq<byte>, reg: nat, ghost ss: seq<seq<byte>>, ghost tail: seq<byte>)
      requires Valid() && HasAt(space, reg, Text(ss) + tail)
      requires |ss| <= 4 && (forall k :: 0 <= k < |ss| ==> IsText(ss[k]))
      requires |ss| < 4 ==> |tail| > 0 && tail[0] == 0xff
      requires |Text(ss)| <= SCAN_MAX + 1 && (|ss| < 4 ==> |Text(ss)| <= SCAN_MAX)
      modifies infoBuf, info
      ensures infoBuf[..] == Spliced(old(infoBuf[..]), 0, Text(ss)[..Min(|Text(ss)|, SCAN_MAX)])
      ensures info[..] == Offsets(ss, Found(ss)) + old(info[..])[Found(ss)..]
    {
      hide Text, HasAt, IsText, Offsets, Spliced, Found;
      var count, start, i := 0, 0, 0;
      ghost var text := Text(ss);
      StringsStart(ss, infoBuf[..], info[..]);
      while count < 4 && i + 4 < 256
        invariant 0 <= count <= |ss| && 0 <= start <= i <= Min(|text|, SCAN_MAX)
        invariant start == |Text(ss[..count])|
        invariant count < |ss| ==> i <= start + |ss[count]|
        invariant count == |ss| ==> i == start == |text|
        invariant infoBuf[..] == Spliced(old(infoBuf[..]), 0, text[..i])
        invariant info[..] == Offsets(ss, count) + old(info[..])[count..]
        decreases 256 - i
      {
        NextChar(space, reg, ss, tail, count, i);
        var ch := space[reg + i];
        if ch == 0xff {
          break;
        }
        StoreChar(old(infoBuf[..]), text, i);
        infoBuf[i] := ch;
        if ch == 0 {
          StoreOffset(ss, count, old(info[..]));
          info[count] := start;
          start := i + 1;
          count := count + 1;
          assert count == |ss| ==> ss[..count] == ss;
        }
        i := i + 1;
      }
      StopsWhenFound(ss, count, i);
    }
  }

  lemma StringsStart(ss: seq<seq<byte>>, buf: seq<byte>, info: seq<int>)
    requires |info| == 4
    ensures Spliced(buf, 0, Text(ss)[..0]) == buf && Offsets(ss, 0) + info[0..] == info && Text(ss[..0]) == []
    ensures |ss| == 0 ==> Text(ss) == []
  {
  }

  lemma StoreChar(buf: seq<byte>, text: seq<byte>, i: nat)
    requires i < |text| && i < |buf|
    ensures Spliced(buf, 0, text[..i])[i := text[i]] == Spliced(buf, 0, text[..i + 1])
  {
  }

  lemma StoreOffset(ss: seq<seq<byte>>, count: nat, info: seq<int>)
    requires count < |ss| <= |info|
    ensures (Offsets(ss, count) + info[count..])[count := |Text(ss[..count])|]
         == Offsets(ss, count + 1) + info[count + 1..]
  {
  }

  /** The loop ends with all strings found, or at byte 252 inside the last. */
  lemma StopsWhenFound(ss: seq<seq<byte>>, count: nat, i: nat)
    requires count <= |ss| <= 4
    requires |Text(ss)| <= SCAN_MAX + 1 && (|ss| < 4 ==> |Text(ss)| <= SCAN_MAX)
    requires count == |ss| ==> i == |Text(ss)| <= SCAN_MAX
    requires count < |ss| ==> i >= SCAN_MAX && i <= |Text(ss[..count])| + |ss[count]|
    ensures count == Found(ss)
  {
    hide Text;
    if count < |ss| {
      TextPrefix(ss, count);
      assert ss[..count + 1][..count] == ss[..count];
      WholeText(ss[..count + 1]);
      if count + 1 < |ss| { TextPrefix(ss, count + 1); }
    }
  }

  /** What the loop sees next: 0xff after the last string, else the next byte of
      the text, which is 0 exactly at the end of a string. */
  lemma NextChar(space: seq<byte>, reg: nat, ss: seq<seq<byte>>, tail: seq<byte>, count: nat, i: nat)
    requires HasAt(space, reg, Text(ss) + tail)
    requires forall k :: 0 <= k < |ss| ==> IsText(ss[k])
    requires |ss| < 4 ==> |tail| > 0 && tail[0] == 0xff
    requires count <= |ss| && count < 4
    requires |Text(ss[..count])| <= i && (count < |ss| ==> i <= |Text(ss[..count])| + |ss[count]|)
    requires count == |ss| ==> i == |Text(ss)|
    ensures reg + i < |space|
    ensures count == |ss| ==> space[reg + i] == 0xff
    ensures count < |ss| ==>
      && i < |Text(ss)| && space[reg + i] == Text(ss)[i] != 0xff
      && (space[reg + i] == 0 <==> i == |Text(ss[..count])| + |ss[count]|)
      && |Text(ss[..count + 1])| == |Text(ss[..count])| + |ss[count]| + 1
  {
    var text := Text(ss);
    HasParts(space, reg, text, tail);
    if count < |ss| {
      TextPrefix(ss, count);
      var a := |Text(ss[..count])|;
      assert text[i] == text[a..a + |ss[count]| + 1][i - a];
      assert text[i] == space[reg..reg + |text|][i];
      assert ss[..count + 1][..count] == ss[..count];
    } else {
      assert tail[0] == space[reg + |text|..reg + |text| + |tail|][0];
    }
  }

  lemma CodeOf(t: Tuple)
    requires WellFormedTuple(t)
    ensures Code(t) != TPL_END && (Code(t) == TPL_NULL <==> t.Null?)
  {
    hide Text, IsText;
  }

  /** A number of two bytes, low byte first. */
  function Pair(lo: byte, hi: byte): uint16
  {
    var l: int, h: int := lo, hi;
    l + 0x100 * h
  }

  /** A printed tuple, taken apart. */
  lemma {:induction false} HeadOfChain(space: seq<byte>, reg: nat, ts: seq<Tuple>)
    requires WellFormed(ts) && HasAt(space, reg, PrintChain(ts))
    ensures reg < |space|
    ensures |ts| == 0 ==> space[reg] == TPL_END
    ensures |ts| > 0 ==>
      && space[reg] == Code(ts[0]) != TPL_END
      && HasAt(space, reg + |Print(ts[0])|, PrintChain(ts[1..]))
      && (space[reg] == TPL_NULL <==> ts[0].Null?)
      && (!ts[0].Null? ==> reg + 1 < |space| && space[reg + 1] == |Body(ts[0])| && HasAt(space, reg + 2, Body(ts[0])))
  {
    hide Print, Body, Code, WellFormedTuple, HasAt;
    if |ts| == 0 {
      ByteAt(space, reg, PrintChain(ts), 0);
    } else {
      HasParts(space, reg, Print(ts[0]), PrintChain(ts[1..]));
      TupleAt(space, reg, ts[0]);
    }
  }

  lemma TupleAt(space: seq<byte>, reg: nat, t: Tuple)
    requires WellFormedTuple(t) && HasAt(space, reg, Print(t))
    ensures reg < |space| && space[reg] == Code(t) != TPL_END && (space[reg] == TPL_NULL <==> t.Null?)
    ensures !t.Null? ==> reg + 1 < |space| && space[reg + 1] == |Body(t)| && HasAt(space, reg + 2, Body(t))
  {
    hide Body, WellFormedTuple, HasAt;
    CodeOf(t);
    ByteAt(space, reg, Print(t), 0);
    if !t.Null? {
      HasParts(space, reg, Header(t), Body(t));
      ByteAt(space, reg, Header(t), 1);
    }
  }

  lemma ByteAt(space: seq<byte>, reg: nat, p: seq<byte>, i: nat)
    requires HasAt(space, reg, p) && i < |p|
    ensures reg + i < |space| && space[reg + i] == p[i]
  {
    assert space[reg..reg + |p|][i] == p[i];
  }

  lemma BodyAt(space: seq<byte>, reg: nat, t: Tuple)
    requires WellFormedTuple(t) && HasAt(space, reg, Body(t))
    ensures reg + |Body(t)| <= |space|
    ensures t.FuncId? ==> |Body(t)| >= 2 && space[reg] == t.func
    ensures t.ManfId? ==> |Body(t)| == 4
                          && Pair(space[reg], space[reg + 1]) == t.manufacturer
                          && Pair(space[reg + 2], space[reg + 3]) == t.product
    ensures t.Vers1? ==> |Body(t)| >= 2 && space[reg] == t.major && space[reg + 1] == t.minor
                         && HasAt(space, reg + 2, Text(t.strings) + t.tail)
  {
    hide Text;
    var b := Body(t);
    forall i | 0 <= i < |b| ensures space[reg + i] == b[i] {
      assert space[reg..reg + |b|][i] == b[i];
    }
    if t.Vers1? {
      HasParts(space, reg, [t.major, t.minor], Text(t.strings) + t.tail);
    }
    if t.FuncId? { assert space[reg + 0] == b[0]; }
    if t.ManfId? {
      assert space[reg + 0] == b[0] && space[reg + 1] == b[1] && space[reg + 2] == b[2] && space[reg + 3] == b[3];
    }
    if t.Vers1? { assert space[reg + 0] == b[0] && space[reg + 1] == b[1]; }
  }

  /** The switch of sdmmc_read_cis: one tuple after its code and length. */
  method ReadTuple(cis: CisRecord, space: seq<byte>, reg: nat, tplcode: byte, tpllen: byte, ghost t: Tuple)
    returns (reg': nat)
    requires cis.Valid() && WellFormedTuple(t) && !t.Null? && HasAt(space, reg, Body(t))
    requires tplcode == Code(t) && tpllen == |Body(t)|
    modifies cis, cis.infoBuf, cis.info
    ensures reg' == reg + tpllen
    ensures cis.Value() == Apply(t, old(cis.Value()))
  {
    hide Text, Offsets, Spliced, Found, HasAt;
    BodyAt(space, reg, t);
    reg' := reg;
    if tplcode == TPL_FUNCID {
      if tpllen < 2 {
        reg' := reg' + tpllen;
      } else {
        cis.func := space[reg'];
        reg' := reg' + tpllen;
      }
    } else if tplcode == TPL_MANFID {
      if tpllen < 4 {
        reg' := reg' + tpllen;
      } else {
        cis.manufacturer := Pair(space[reg'], space[reg' + 1]);
        cis.product := Pair(space[reg' + 2], space[reg' + 3]);
        reg' := reg' + 4;
      }
    } else if tplcode == TPL_VERS_1 {
      if tpllen < 2 {
        reg' := reg' + tpllen;
      } else {
        cis.major := space[reg'];
        cis.minor := space[reg' + 1];
        reg' := reg' + 2;
        cis.ReadStrings(space, reg', t.strings, t.tail);
        reg' := reg' + (tpllen - 2);
      }
    } else {
      reg' := reg' + tpllen;
    }
  }

  /** The CIS pointer of a function. */
  function Pointer(space: seq<byte>, number: nat): nat
    requires number < 8 && |space| == 0x2_0000
  {
    LeNat(space[CCCR_CISPTR + number * CCCR_SIZE..CCCR_CISPTR + number * CCCR_SIZE + 3])
  }

  predicate GoodPointer(reg: nat) { CIS_START <= reg < CIS_START + CIS_SIZE - 16 }

  /** sdmmc_read_cis undoes PrintChain: for a chain laid out at the CIS pointer it
      stops at the end tuple with the record the chain describes. */
  method ReadCis(cis: CisRecord, space: seq<byte>, number: nat, ghost ts: seq<Tuple>) returns (err: int)
    requires cis.Valid() && number < 8 && |space| == 0x2_0000 && WellFormed(ts)
    requires GoodPointer(Pointer(space, number)) ==> HasAt(space, Pointer(space, number), PrintChain(ts))
    modifies cis, cis.infoBuf, cis.info
    ensures err == if GoodPointer(Pointer(space, number)) then 0 else 1
    ensures cis.Value() == if err == 0 then Parsed(ts, old(cis.Value())) else old(cis.Value())
  {
    hide Apply, HasAt, Print, Body, WellFormedTuple;
    var reg: nat := CisPointer(space, number);
    if reg < CIS_START || reg >= CIS_START + CIS_SIZE - 16 {
      return 1;
    }
    ghost var rest := ts;
    while true
      invariant WellFormed(rest) && HasAt(space, reg, PrintChain(rest))
      invariant Parsed(ts, old(cis.Value())) == Parsed(rest, cis.Value())
      decreases |rest|
    {
      HeadOfChain(space, reg, rest);
      var tplcode := space[reg];
      reg := reg + 1;
      if tplcode == TPL_END {
        break;
      }
      if tplcode == TPL_NULL {
        NullTuple(rest[0], cis.Value());
        rest := rest[1..];
        continue;
      }
      var tpllen := space[reg];
      PrintedSize(rest[0]);
      reg := reg + 1;
      reg := ReadTuple(cis, space, reg, tplcode, tpllen, rest[0]);
      rest := rest[1..];
    }
    err := 0;
  }

  lemma NullTuple(t: Tuple, v: CisValue)
    requires t.Null? && v.Valid() && WellFormedTuple(t)
    ensures |Print(t)| == 1 && Apply(t, v) == v
  {
  }

  lemma PrintedSize(t: Tuple)
    requires WellFormedTuple(t) && !t.Null?
    ensures |Print(t)| == 2 + |Body(t)|
  {
  }
}
