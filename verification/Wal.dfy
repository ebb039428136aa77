/** src/domain/policies/wal.rs: what a write-ahead-log segment is called, and
    which archived ones may go.

    Names are three fixed-width hexadecimal fields and are compared as text.
    The results here are that text order is the order of timelines and then of
    positions, that a name reads back, and that deleting what may be deleted
    never opens a hole in what a kept backup needs.
 */
module Wal {
  import opened Text

  const SEGMENT_BYTES := 0x100_0000

  /** Segments in a 4 GB log id: `U32 / SEGMENT_BYTES` (see `Widths`). */
  const PER_ID := 256
  const U32 := 0x1_0000_0000
  const U64 := 0x1_0000_0000_0000_0000

  // ---------- hexadecimal ----------

  predicate IsUpperHex(c: char) { '0' <= c <= '9' || 'A' <= c <= 'F' }

  predicate IsHex(c: char) { IsUpperHex(c) || 'a' <= c <= 'f' }

  predicate AllHex(s: string) { forall i :: 0 <= i < |s| ==> IsHex(s[i]) }

  predicate AllUpperHex(s: string) { forall i :: 0 <= i < |s| ==> IsUpperHex(s[i]) }

  function HexDigit(d: nat): (c: char)
    requires d < 16
    ensures IsUpperHex(c) && HexValue(c) == d
  {
    if d < 10 then ('0' as int + d) as char else ('A' as int + d - 10) as char
  }

  function HexValue(c: char): (d: nat)
    requires IsHex(c)
    ensures d < 16
  {
    if c <= '9' then c as int - '0' as int
    else if c <= 'F' then c as int - 'A' as int + 10
    else c as int - 'a' as int + 10
  }

  function Pow16(n: nat): (p: nat)
    ensures p >= 1
  {
    if n == 0 then 1 else 16 * Pow16(n - 1)
  }

  /** The number that hexadecimal digits stand for. */
  function HexNumber(s: string): nat
    requires AllHex(s)
  {
    if s == "" then 0 else HexValue(s[0]) * Pow16(|s| - 1) + HexNumber(s[1..])
  }

  /** A number in as few digits as it takes, as `{:X}` writes it. */
  function Hex(n: nat): (s: string)
    ensures s != "" && AllUpperHex(s)
  {
    if n < 16 then [HexDigit(n)] else Hex(n / 16) + [HexDigit(n % 16)]
  }

  function Zeros(n: nat): string { seq(n, _ => '0') }

  /** `{:0widthX}`: zeros in front until the text is wide enough. */
  function PaddedHex(n: nat, width: nat): string {
    var digits := Hex(n);
    if |digits| < width then Zeros(width - |digits|) + digits else digits
  }

  /** `from_str_radix(.., 16)` for an unsigned type whose largest value is `max`. */
  function ParseHex(s: string, max: nat): Option<nat> {
    var digits := if s != "" && s[0] == '+' then s[1..] else s;
    if digits == "" || !AllHex(digits) then None
    else if HexNumber(digits) > max then None
    else Some(HexNumber(digits))
  }

  lemma {:induction false} Scale(x: nat, y: nat, p: nat)
    requires x < y
    ensures x * p + p <= y * p
  {
    assert y * p == (y - 1) * p + p;
    if x < y - 1 { Scale(x, y - 1, p); }
  }

  lemma {:induction false} HexNumberBound(s: string)
    requires AllHex(s)
    ensures HexNumber(s) < Pow16(|s|)
  {
    if s != "" {
      HexNumberBound(s[1..]);
      Scale(HexValue(s[0]), 16, Pow16(|s| - 1));
    }
  }

  lemma TimesSixteen(d: nat, p: nat)
    ensures d * (16 * p) == 16 * (d * p)
  {
  }

  lemma {:induction false} HexNumberAppend(s: string, c: char)
    requires AllHex(s) && IsHex(c)
    ensures HexNumber(s + [c]) == 16 * HexNumber(s) + HexValue(c)
  {
    if s == "" {
      assert s + [c] == [c];
      assert Pow16(0) == 1;
    } else {
      assert (s + [c])[1..] == s[1..] + [c];
      HexNumberAppend(s[1..], c);
      TimesSixteen(HexValue(s[0]), Pow16(|s| - 1));
    }
  }

  /** The case of the digits changes no number. */
  lemma {:induction false} CaseOfDigits(s: string, t: string)
    requires AllHex(s) && AllHex(t) && Lower(s) == Lower(t)
    ensures HexNumber(s) == HexNumber(t)
  {
    if s != "" {
      assert Lower(s)[0] == Lower(t)[0];
      LowerTail(s);
      LowerTail(t);
      CaseOfDigits(s[1..], t[1..]);
    }
  }

  lemma LowerTail(s: string)
    requires s != ""
    ensures Lower(s[1..]) == Lower(s)[1..]
  {
    var a, b := Lower(s[1..]), Lower(s)[1..];
    assert forall i :: 0 <= i < |a| ==> a[i] == b[i];
  }

  lemma {:induction false} HexReads(n: nat)
    ensures HexNumber(Hex(n)) == n
  {
    if n < 16 {
      assert Pow16(0) == 1;
      assert HexNumber([HexDigit(n)]) == HexDigit(n) as int - HexDigit(n) as int + n;
    } else {
      HexReads(n / 16);
      HexNumberAppend(Hex(n / 16), HexDigit(n % 16));
    }
  }

  lemma {:induction false} HexLength(n: nat, width: nat)
    requires width > 0 && n < Pow16(width)
    ensures |Hex(n)| <= width
  {
    if n >= 16 {
      assert width > 1 by { assert Pow16(1) == 16 * Pow16(0); }
      HexLength(n / 16, width - 1);
    }
  }

  lemma {:induction false} HexNumberZeros(k: nat, s: string)
    requires AllHex(s)
    ensures AllHex(Zeros(k) + s) && HexNumber(Zeros(k) + s) == HexNumber(s)
  {
    if k == 0 {
      assert Zeros(0) + s == s;
    } else {
      assert (Zeros(k) + s)[1..] == Zeros(k - 1) + s;
      HexNumberZeros(k - 1, s);
    }
  }

  lemma PaddedHexIs(n: nat, width: nat)
    requires width > 0 && n < Pow16(width)
    ensures var s := PaddedHex(n, width);
            |s| == width && AllUpperHex(s) && AllHex(s) && HexNumber(s) == n
  {
    hide Hex, HexNumber, Pow16;
    HexLength(n, width);
    HexReads(n);
    HexNumberZeros(width - |Hex(n)|, Hex(n));
    PaddedIsUpper(n, width);
  }

  lemma PaddedIsUpper(n: nat, width: nat)
    ensures AllUpperHex(PaddedHex(n, width)) && |PaddedHex(n, width)| == if |Hex(n)| < width then width else |Hex(n)|
    ensures |Hex(n)| == width ==> PaddedHex(n, width) == Zeros(width - |Hex(n)|) + Hex(n)
  {
    hide Hex;
    assert AllUpperHex(Hex(n));
  }

  // ---------- the order of text ----------

  /** `<` on `str`: byte order, which is the order of code points. */
  predicate Less(a: string, b: string) {
    if a == "" then b != ""
    else if b == "" then false
    else if a[0] != b[0] then a[0] < b[0]
    else Less(a[1..], b[1..])
  }

  /** As text before as number, against digits in upper case; both ways when
      the other digits are upper case too. A lower-case digit only ever makes
      a text later. */
  lemma {:induction false} TextOrderOfHex(a: string, b: string)
    requires |a| == |b| && AllHex(a) && AllUpperHex(b) && AllHex(b)
    ensures Less(a, b) ==> HexNumber(a) < HexNumber(b)
    ensures AllUpperHex(a) && HexNumber(a) < HexNumber(b) ==> Less(a, b)
    ensures AllUpperHex(a) && HexNumber(a) == HexNumber(b) ==> a == b
  {
    if a != "" {
      TextOrderOfHex(a[1..], b[1..]);
      HexNumberBound(a[1..]);
      HexNumberBound(b[1..]);
      FirstDigits(HexValue(a[0]), HexNumber(a[1..]), HexValue(b[0]), HexNumber(b[1..]), Pow16(|a| - 1));
      assert a == [a[0]] + a[1..] && b == [b[0]] + b[1..];
    }
  }

  lemma FirstDigits(x: nat, m: nat, y: nat, n: nat, p: nat)
    requires m < p && n < p
    ensures x * p + m < y * p + n <==> x < y || (x == y && m < n)
    ensures x * p + m == y * p + n <==> x == y && m == n
  {
    if x < y { Scale(x, y, p); }
    if y < x { Scale(y, x, p); }
  }

  lemma {:induction false} LessByFields(a: string, a': string, b: string, b': string)
    requires |a| == |b|
    ensures Less(a + a', b + b') <==> Less(a, b) || (a == b && Less(a', b'))
  {
    if a == "" {
      assert a + a' == a' && b + b' == b';
    } else {
      assert (a + a')[1..] == a[1..] + a' && (b + b')[1..] == b[1..] + b';
      LessByFields(a[1..], a', b[1..], b');
      assert a == [a[0]] + a[1..] && b == [b[0]] + b[1..];
    }
  }

  // ---------- names ----------

  function SegmentName(timeline: nat, lsn: nat): string
    requires timeline < U32 && lsn < U64
  {
    var segment := lsn / SEGMENT_BYTES;
    PaddedHex(timeline, 8) + (PaddedHex(segment / PER_ID, 8) + PaddedHex(segment % PER_ID, 8))
  }

  /** The byte position of a character boundary. */
  ghost predicate Boundary(s: string, bytes: nat) {
    exists k :: 0 <= k <= |s| && Utf8Len(s[..k]) == bytes
  }

  predicate AllAscii(s: string) { forall i :: 0 <= i < |s| ==> IsAscii(s[i]) }

  /** The segment of a name. The slices of the source panic when bytes 8 or 16
      of a 24-byte name fall inside a character; on a boundary, a field with a
      character that is not ASCII is not a number. */
  function SegmentOf(name: string): Option<(nat, nat)>
    requires Utf8Len(name) == 24 ==> Boundary(name, 8) && Boundary(name, 16)
  {
    if Utf8Len(name) != 24 || !AllAscii(name) then None else
      Utf8LenAscii(name);
      match (ParseHex(name[..8], U32 - 1), ParseHex(name[8..16], U64 - 1), ParseHex(name[16..], U64 - 1))
      case (Some(timeline), Some(high), Some(low)) => Some((timeline, high * PER_ID + low))
      case _ => None
  }

  predicate IsSegmentName(name: string) {
    Utf8Len(name) == 24 && AllHex(name)
  }

  predicate MayDelete(file: string, oldestNeeded: string) {
    var name := WithoutSuffix(file, ".gz");
    IsSegmentName(name) && Less(name, oldestNeeded)
  }

  /** A digit from 0 to 9 or a letter from A to F in either case. */
  predicate Digit16(c: char) { '0' <= c <= '9' || 'A' <= c <= 'F' || 'a' <= c <= 'f' }

  /** Where `a` and `b` first differ, at `k`, the character of `a` is the smaller one. */
  predicate DifferAt(a: string, b: string, k: nat) {
    k < |a| && k < |b| && a[..k] == b[..k] && a[k] < b[k]
  }

  /** `a` is before `b` as text: the smaller where they first differ, or the
      beginning of it. */
  ghost predicate TextBefore(a: string, b: string) {
    a < b || exists k: nat :: DifferAt(a, b, k)
  }

  lemma DifferFurtherOn(a: string, b: string, k: nat)
    requires a != "" && b != "" && a[0] == b[0]
    ensures DifferAt(a, b, k + 1) <==> DifferAt(a[1..], b[1..], k)
  {
    if k + 1 <= |a| && k + 1 <= |b| {
      var c, d := a[1..][..k], b[1..][..k];
      assert a[..k + 1] == [a[0]] + c && b[..k + 1] == [b[0]] + d;
      assert c == a[..k + 1][1..] && d == b[..k + 1][1..];
    }
  }

  lemma BeginningFurtherOn(a: string, b: string)
    requires a != "" && b != "" && a[0] == b[0]
    ensures a < b <==> a[1..] < b[1..]
  {
    assert a == [a[0]] + a[1..] && b == [b[0]] + b[1..];
  }

  lemma BeforeFurtherOn(a: string, b: string)
    requires a != "" && b != "" && a[0] == b[0]
    ensures TextBefore(a, b) <==> TextBefore(a[1..], b[1..])
  {
    BeginningFurtherOn(a, b);
    if k: nat :| DifferAt(a, b, k) {
      assert k > 0;
      DifferFurtherOn(a, b, k - 1);
    }
    if k: nat :| DifferAt(a[1..], b[1..], k) { DifferFurtherOn(a, b, k); }
  }

  lemma BeforeAtOnce(a: string, b: string)
    requires a != "" && b != "" && a[0] != b[0]
    ensures TextBefore(a, b) <==> a[0] < b[0]
  {
    assert a[0] < b[0] ==> DifferAt(a, b, 0);
    forall k: nat | k > 0
      ensures !DifferAt(a, b, k)
    {
      NotLater(a, b, k);
    }
  }

  lemma NotLater(a: string, b: string, k: nat)
    requires a != "" && b != "" && a[0] != b[0] && k > 0
    ensures !DifferAt(a, b, k)
  {
    if k <= |a| && k <= |b| { assert a[..k][0] == a[0] && b[..k][0] == b[0]; }
  }

  lemma {:induction false} LessIsTextBefore(a: string, b: string)
    ensures Less(a, b) <==> TextBefore(a, b)
  {
    if a != "" && b != "" {
      hide TextBefore;
      if a[0] == b[0] {
        BeforeFurtherOn(a, b);
        LessIsTextBefore(a[1..], b[1..]);
      } else {
        BeforeAtOnce(a, b);
      }
    }
  }

  lemma SegmentNamesAre(name: string)
    ensures IsSegmentName(name) <==> |name| == 24 && forall i :: 0 <= i < |name| ==> Digit16(name[i])
  {
    if AllHex(name) { Utf8LenAscii(name); }
    assert (forall i :: 0 <= i < |name| ==> Digit16(name[i])) ==> AllHex(name);
  }

  /** What may go, character by character: twenty-four digits, with `.gz` after
      them or not, which are before the anchor as text; and nothing else. */
  lemma DeletableExactly(file: string, oldest: string)
    ensures MayDelete(file, oldest) <==>
            exists name :: (file == name || file == name + ".gz")
              && |name| == 24 && (forall i :: 0 <= i < |name| ==> Digit16(name[i])) && TextBefore(name, oldest)
  {
    var stem := WithoutSuffix(file, ".gz");
    assert file == stem || file == stem + ".gz";
    SegmentNamesAre(stem);
    LessIsTextBefore(stem, oldest);
    forall name | (file == name || file == name + ".gz")
        && |name| == 24 && (forall i :: 0 <= i < |name| ==> Digit16(name[i]))
      ensures stem == name
    {
      SegmentNamesAre(name);
      StripsItsOwnSuffix(name);
    }
  }

  lemma Widths(timeline: nat, lsn: nat)
    requires timeline < U32 && lsn < U64
    ensures Pow16(8) == U32 && PER_ID == U32 / SEGMENT_BYTES
    ensures lsn / SEGMENT_BYTES / PER_ID < U32 && lsn / SEGMENT_BYTES % PER_ID < 256
  {
    assert Pow16(4) == 0x10000;
    assert Pow16(8) == 16 * (16 * (16 * (16 * Pow16(4))));
  }

  /** The three fields of a name. */
  lemma NameFields(timeline: nat, lsn: nat)
    requires timeline < U32 && lsn < U64
    ensures var name := SegmentName(timeline, lsn); var segment := lsn / SEGMENT_BYTES;
            && |name| == 24 && AllUpperHex(name) && IsSegmentName(name)
            && AllHex(name[..8]) && AllHex(name[8..16]) && AllHex(name[16..])
            && HexNumber(name[..8]) == timeline
            && HexNumber(name[8..16]) == segment / PER_ID
            && HexNumber(name[16..]) == segment % PER_ID < 256
  {
    Widths(timeline, lsn);
    var segment := lsn / SEGMENT_BYTES;
    PaddedHexIs(timeline, 8);
    PaddedHexIs(segment / PER_ID, 8);
    PaddedHexIs(segment % PER_ID, 8);
    var name := SegmentName(timeline, lsn);
    assert name[..8] == PaddedHex(timeline, 8);
    assert name[8..16] == PaddedHex(segment / PER_ID, 8);
    assert name[16..] == PaddedHex(segment % PER_ID, 8);
    Utf8LenAscii(name);
  }

  lemma ParseHexOf(s: string, max: nat)
    requires s != "" && AllHex(s)
    ensures ParseHex(s, max) == if HexNumber(s) <= max then Some(HexNumber(s)) else None
  {
  }

  lemma BoundariesOfAscii(s: string, k: nat)
    requires k <= |s| && AllAscii(s)
    ensures Boundary(s, k)
  {
    Utf8LenAscii(s[..k]);
  }

  lemma FieldsOf(name: string)
    requires IsSegmentName(name)
    ensures |name| == 24 && AllHex(name[..8]) && AllHex(name[8..16]) && AllHex(name[16..])
    ensures name == name[..8] + (name[8..16] + name[16..])
  {
    Utf8LenAscii(name);
  }

  /** What any name of 24 hexadecimal digits is read as. */
  lemma SegmentOfFields(name: string)
    requires IsSegmentName(name)
    ensures |name| == 24 && AllHex(name[..8]) && AllHex(name[8..16]) && AllHex(name[16..])
    ensures Boundary(name, 8) && Boundary(name, 16)
    ensures SegmentOf(name) == Some((HexNumber(name[..8]), HexNumber(name[8..16]) * PER_ID + HexNumber(name[16..])))
  {
    FieldsOf(name);
    BoundariesOfAscii(name, 8);
    BoundariesOfAscii(name, 16);
    HexNumberBound(name[..8]);
    HexNumberBound(name[8..16]);
    HexNumberBound(name[16..]);
    Widths(0, 0);
    ParseHexOf(name[..8], U32 - 1);
    ParseHexOf(name[8..16], U64 - 1);
    ParseHexOf(name[16..], U64 - 1);
  }

  /** A field as `from_str_radix` takes it: digits, the first of which may be a plus. */
  predicate IsField(f: string) {
    f != "" && (f[0] == '+' ==> |f| > 1) && (f[0] == '+' || Digit16(f[0]))
    && forall i :: 1 <= i < |f| ==> Digit16(f[i])
  }

  lemma FieldIsRead(f: string, max: nat)
    requires |f| == 8 && max >= U32 - 1
    ensures ParseHex(f, max).Some? <==> IsField(f)
    ensures IsField(f) ==> AllAscii(f)
  {
    var digits := if f[0] == '+' then f[1..] else f;
    assert AllHex(digits) <==> IsField(f) by {
      if AllHex(digits) { assert forall i :: 1 <= i < 8 ==> f[i] == digits[if f[0] == '+' then i - 1 else i]; }
    }
    if AllHex(digits) {
      HexNumberBound(digits);
      Widths(0, 0);
      assert Pow16(8) == 16 * Pow16(7);
    }
  }

  /** Three fields in 24 characters are a segment. Anything else is none: a name
      that is longer or shorter, such as a history file's, or has any other
      character in it. */
  lemma SegmentsAreThreeFields(name: string)
    requires Utf8Len(name) == 24 ==> Boundary(name, 8) && Boundary(name, 16)
    ensures SegmentOf(name).Some? <==>
            |name| == 24 && IsField(name[..8]) && IsField(name[8..16]) && IsField(name[16..])
  {
    if |name| == 24 {
      FieldIsRead(name[..8], U32 - 1);
      FieldIsRead(name[8..16], U64 - 1);
      FieldIsRead(name[16..], U64 - 1);
      if IsField(name[..8]) && IsField(name[8..16]) && IsField(name[16..]) {
        assert name == name[..8] + (name[8..16] + name[16..]);
        Utf8LenAscii(name);
      }
    } else if AllAscii(name) {
      Utf8LenAscii(name);
    }
  }

  /** A name reads back into its timeline and the number of its segment. */
  lemma NameReadsBack(timeline: nat, lsn: nat)
    requires timeline < U32 && lsn < U64
    ensures var name := SegmentName(timeline, lsn);
            && |name| == 24 && Boundary(name, 8) && Boundary(name, 16)
            && SegmentOf(name) == Some((timeline, lsn / SEGMENT_BYTES))
  {
    NameFields(timeline, lsn);
    SegmentOfFields(SegmentName(timeline, lsn));
  }

  /** An earlier timeline, or the same one and an earlier segment. */
  predicate Before(timeline: nat, segment: nat, timeline': nat, segment': nat) {
    timeline < timeline' || (timeline == timeline' && segment < segment')
  }

  /** Text order between a segment file and a name, field by field: deletable
      means an earlier timeline, high field or low field, whatever the case of
      the digits, and with upper-case digits that is exactly what it means. */
  lemma TextOrderIsFieldOrder(name: string, timeline: nat, lsn: nat)
    requires IsSegmentName(name) && timeline < U32 && lsn < U64
    ensures |name| == 24 && AllHex(name[..8]) && AllHex(name[8..16]) && AllHex(name[16..])
    ensures var t, h, l := HexNumber(name[..8]), HexNumber(name[8..16]), HexNumber(name[16..]);
            var segment := lsn / SEGMENT_BYTES;
            var earlier := t < timeline || (t == timeline && Before(h, l, segment / PER_ID, segment % PER_ID));
            && (Less(name, SegmentName(timeline, lsn)) ==> earlier)
            && (AllUpperHex(name) && earlier ==> Less(name, SegmentName(timeline, lsn)))
  {
    FieldsOf(name);
    NameFields(timeline, lsn);
    var other := SegmentName(timeline, lsn);
    FieldsOf(other);
    LessByFields(name[..8], name[8..16] + name[16..], other[..8], other[8..16] + other[16..]);
    LessByFields(name[8..16], name[16..], other[8..16], other[16..]);
    TextOrderOfHex(name[..8], other[..8]);
    TextOrderOfHex(name[8..16], other[8..16]);
    TextOrderOfHex(name[16..], other[16..]);
  }

  /** Comparing two names as text is comparing timelines and then segments. */
  lemma NameOrder(timeline: nat, lsn: nat, timeline': nat, lsn': nat)
    requires timeline < U32 && lsn < U64 && timeline' < U32 && lsn' < U64
    ensures Less(SegmentName(timeline, lsn), SegmentName(timeline', lsn'))
            <==> Before(timeline, lsn / SEGMENT_BYTES, timeline', lsn' / SEGMENT_BYTES)
  {
    NameFields(timeline, lsn);
    TextOrderIsFieldOrder(SegmentName(timeline, lsn), timeline', lsn');
  }

  /** A name with three fields of eight digits, whatever they are. */
  function NameOf(timeline: nat, high: nat, low: nat): string {
    PaddedHex(timeline, 8) + (PaddedHex(high, 8) + PaddedHex(low, 8))
  }

  lemma NameOfFields(timeline: nat, high: nat, low: nat)
    requires timeline < U32 && high < U32 && low < U32
    ensures var name := NameOf(timeline, high, low);
            && IsSegmentName(name) && AllUpperHex(name) && |name| == 24 && AllAscii(name)
            && AllHex(name[..8]) && AllHex(name[8..16]) && AllHex(name[16..])
            && HexNumber(name[..8]) == timeline && HexNumber(name[8..16]) == high && HexNumber(name[16..]) == low
  {
    Widths(0, 0);
    PaddedHexIs(timeline, 8);
    PaddedHexIs(high, 8);
    PaddedHexIs(low, 8);
    var name := NameOf(timeline, high, low);
    assert name[..8] == PaddedHex(timeline, 8);
    assert name[8..16] == PaddedHex(high, 8);
    assert name[16..] == PaddedHex(low, 8);
    Utf8LenAscii(name);
  }

  /** A name is read as a segment, and that segment has a name of its own. The
      first is deletable against the second exactly when its low field is not
      below 256, which is where text and number part. */
  lemma LowFieldMustBeCanonical(timeline: nat, high: nat, low: nat)
    requires timeline < U32 && high < U32 && low < U32
    requires (high * PER_ID + low) * SEGMENT_BYTES < U64
    ensures var name, lsn := NameOf(timeline, high, low), (high * PER_ID + low) * SEGMENT_BYTES;
            && Boundary(name, 8) && Boundary(name, 16)
            && Boundary(SegmentName(timeline, lsn), 8) && Boundary(SegmentName(timeline, lsn), 16)
            && SegmentOf(name) == SegmentOf(SegmentName(timeline, lsn))
            && (Less(name, SegmentName(timeline, lsn)) <==> low >= PER_ID)
  {
    var name, lsn := NameOf(timeline, high, low), (high * PER_ID + low) * SEGMENT_BYTES;
    NameOfFields(timeline, high, low);
    SegmentOfFields(name);
    NameReadsBack(timeline, lsn);
    TextOrderIsFieldOrder(name, timeline, lsn);
    assert low >= PER_ID <==> high < (high * PER_ID + low) / PER_ID;
  }

  // ---------- positions ----------

  /** `|` on numbers, bit by bit. */
  function BitOr(a: nat, b: nat): nat
    decreases a + b
  {
    if a == 0 then b else if b == 0 then a
    else 2 * BitOr(a / 2, b / 2) + if a % 2 == 1 || b % 2 == 1 then 1 else 0
  }

  function Pow2(n: nat): (p: nat)
    ensures p >= 1
  {
    if n == 0 then 1 else 2 * Pow2(n - 1)
  }

  lemma {:induction false} BitOrDisjoint(high: nat, n: nat, low: nat)
    requires low < Pow2(n)
    ensures BitOr(high * Pow2(n), low) == high * Pow2(n) + low
  {
    var p := high * Pow2(n);
    if n > 0 && p != 0 && low != 0 {
      assert p == 2 * (high * Pow2(n - 1));
      BitOrDisjoint(high, n - 1, low / 2);
    }
  }

  /** Bit `n` of a number. */
  function Bit(a: nat, n: nat): bool { a / Pow2(n) % 2 == 1 }

  lemma BitOfHalf(a: nat, n: nat)
    ensures Bit(a, n + 1) == Bit(a / 2, n) && Bit(a, 0) == (a % 2 == 1)
  {
    DivideTwice(a, Pow2(n));
    assert Pow2(0) == 1;
  }

  lemma DivideTwice(a: nat, p: nat)
    requires p >= 1
    ensures a / (2 * p) == a / 2 / p
  {
    var q := a / 2 / p;
    var r := a / 2 - q * p;
    assert 0 <= r < p;
    assert a == 2 * (q * p + r) + a % 2 == q * (2 * p) + (2 * r + a % 2);
    Quotient(a, 2 * p, q, 2 * r + a % 2);
  }

  lemma Quotient(a: nat, d: nat, q: nat, r: nat)
    requires r < d && a == q * d + r
    ensures a / d == q
  {
    if a / d < q { Scale(a / d, q, d); }
    if q < a / d { Scale(q, a / d, d); }
  }

  /** A bit is set exactly if it is in one or the other. */
  lemma {:induction false} BitOrIsBitwise(a: nat, b: nat, n: nat)
    ensures Bit(BitOr(a, b), n) <==> Bit(a, n) || Bit(b, n)
    decreases n
  {
    hide Bit;
    if a != 0 && b != 0 {
      var c := BitOr(a, b);
      assert c / 2 == BitOr(a / 2, b / 2) && (c % 2 == 1 <==> a % 2 == 1 || b % 2 == 1);
      if n == 0 {
        BitOfHalf(a, 0);
        BitOfHalf(b, 0);
        BitOfHalf(c, 0);
      } else {
        BitOfHalf(a, n - 1);
        BitOfHalf(b, n - 1);
        BitOfHalf(c, n - 1);
        BitOrIsBitwise(a / 2, b / 2, n - 1);
      }
    } else {
      NoBitsOfNought(n);
    }
  }

  lemma NoBitsOfNought(n: nat)
    ensures !Bit(0, n)
  {
    Quotient(0, Pow2(n), 0, 0);
  }

  /** The two halves around the slash. */
  function Halves(text: string): Option<(string, string)> {
    var t := Trim(text);
    var slash := Find(t, '/');
    if slash == |t| then None else Some((Trim(t[..slash]), Trim(t[slash + 1..])))
  }

  /** `(high << 32) | low`: the shift keeps the low 64 bits. */
  function Together(high: Option<nat>, low: Option<nat>): Option<nat> {
    if high.Some? && low.Some? then Some(BitOr(high.value % U32 * U32, low.value)) else None
  }

  /** `lsn`. */
  function Lsn(text: string): Option<nat> {
    match Halves(text)
    case None => None
    case Some((high, low)) => Together(ParseHex(high, U64 - 1), ParseHex(low, U64 - 1))
  }

  /** A position as Postgres writes it, `%X/%X`. */
  function PrintLsn(lsn: nat): string { Hex(lsn / U32) + "/" + Hex(lsn % U32) }

  lemma HexIsTrimmed(n: nat)
    ensures Trimmed(Hex(n)) && '/' !in Hex(n)
  {
  }

  lemma HexParses(n: nat)
    requires n < U64
    ensures ParseHex(Hex(n), U64 - 1) == Some(n)
  {
    HexReads(n);
  }

  lemma ShiftedHalves(high: nat, low: nat)
    requires low < U32
    ensures BitOr(high * U32, low) == high * U32 + low
  {
    assert Pow2(8) == 256;
    assert Pow2(16) == 0x10000;
    assert Pow2(24) == 0x100_0000;
    assert Pow2(32) == U32;
    BitOrDisjoint(high, 32, low);
  }

  lemma TogetherAgain(lsn: nat)
    requires lsn < U64
    ensures Together(Some(lsn / U32), Some(lsn % U32)) == Some(lsn)
  {
    hide BitOr;
    var high := lsn / U32;
    assert high < U32 && high % U32 == high;
    ShiftedHalves(high, lsn % U32);
  }

  lemma SlashSplits(a: string, b: string)
    requires a != "" && b != "" && Trimmed(a) && Trimmed(b) && '/' !in a
    ensures var t := a + "/" + b;
            Trimmed(t) && Find(t, '/') == |a| && t[..|a|] == a && t[|a| + 1..] == b
  {
    FindIs(a, '/', b);
    assert a + "/" + b == a + ['/'] + b;
  }

  lemma HalvesOf(a: string, b: string, lead: string, trail: string)
    requires a != "" && b != "" && Trimmed(a) && Trimmed(b) && '/' !in a && Blank(lead) && Blank(trail)
    ensures Halves(lead + (a + "/" + b) + trail) == Some((a, b))
  {
    SlashSplits(a, b);
    TrimPadded(lead, a + "/" + b, trail);
    TrimIsTrimmed(a);
    TrimIsTrimmed(b);
  }

  /** Any two 64-bit halves are taken together bit by bit: the high one moved up by 32
      bits, of which 64 are kept, and the low one. */
  lemma HalvesAreTakenTogether(high: nat, low: nat, lead: string, trail: string)
    requires high < U64 && low < U64 && Blank(lead) && Blank(trail)
    ensures var lsn := Lsn(lead + (Hex(high) + "/" + Hex(low)) + trail);
            lsn.Some? && forall n: nat :: Bit(lsn.value, n) <==> Bit(high % U32 * U32, n) || Bit(low, n)
  {
    hide Bit, BitOr, ParseHex, Hex;
    HexIsTrimmed(high);
    HexIsTrimmed(low);
    HalvesOf(Hex(high), Hex(low), lead, trail);
    HexParses(high);
    HexParses(low);
    forall n: nat
      ensures Bit(BitOr(high % U32 * U32, low), n) <==> Bit(high % U32 * U32, n) || Bit(low, n)
    {
      BitOrIsBitwise(high % U32 * U32, low, n);
    }
  }

  /** Every 64-bit position reads back, whatever whitespace is around it. */
  lemma PositionReadsBack(lsn: nat, lead: string, trail: string)
    requires lsn < U64 && Blank(lead) && Blank(trail)
    ensures Lsn(lead + PrintLsn(lsn) + trail) == Some(lsn)
  {
    var high, low := lsn / U32, lsn % U32;
    HexIsTrimmed(high);
    HexIsTrimmed(low);
    HalvesOf(Hex(high), Hex(low), lead, trail);
    HexParses(high);
    HexParses(low);
    TogetherAgain(lsn);
  }

  // ---------- retention ----------

  /** Where a kept backup starts, if its manifest says. */
  datatype Start = Start(timeline: nat, lsn: nat)

  predicate ValidStart(s: Start) { s.timeline < U32 && s.lsn < U64 }

  function StartName(s: Start): string
    requires ValidStart(s)
  {
    SegmentName(s.timeline, s.lsn)
  }

  /** One pass over an archive: without an anchor nothing goes. */
  function Sweep(files: set<string>, oldest: Option<Start>): set<string>
    requires oldest.Some? ==> ValidStart(oldest.value)
  {
    match oldest
    case None => files
    case Some(start) => set f | f in files && !MayDelete(f, StartName(start))
  }

  /** The segment is in the archive, compressed or not. */
  predicate Holds(files: set<string>, timeline: nat, segment: nat)
    requires timeline < U32 && segment * SEGMENT_BYTES < U64
  {
    var name := SegmentName(timeline, segment * SEGMENT_BYTES);
    name in files || name + ".gz" in files
  }

  lemma StripsItsOwnSuffix(name: string)
    requires IsSegmentName(name)
    ensures WithoutSuffix(name + ".gz", ".gz") == name
    ensures WithoutSuffix(name, ".gz") == name
  {
    FieldsOf(name);
    assert (name + ".gz")[|name|..] == ".gz" && (name + ".gz")[..|name|] == name;
    assert name[21] == name[21..][0];
  }

  /** A canonical segment is deletable exactly when it comes before the anchor. */
  lemma DeletableIsEarlier(timeline: nat, segment: nat, start: Start)
    requires timeline < U32 && segment * SEGMENT_BYTES < U64 && ValidStart(start)
    ensures var name := SegmentName(timeline, segment * SEGMENT_BYTES);
            && (MayDelete(name, StartName(start))
                <==> Before(timeline, segment, start.timeline, start.lsn / SEGMENT_BYTES))
            && (MayDelete(name + ".gz", StartName(start))
                <==> Before(timeline, segment, start.timeline, start.lsn / SEGMENT_BYTES))
  {
    NameFields(timeline, segment * SEGMENT_BYTES);
    StripsItsOwnSuffix(SegmentName(timeline, segment * SEGMENT_BYTES));
    NameOrder(timeline, segment * SEGMENT_BYTES, start.timeline, start.lsn);
  }

  /** What a sweep keeps of the canonical segments: those at or after the anchor. */
  lemma SweepKeeps(files: set<string>, timeline: nat, segment: nat, oldest: Option<Start>)
    requires timeline < U32 && segment * SEGMENT_BYTES < U64
    requires oldest.Some? ==> ValidStart(oldest.value)
    ensures Holds(Sweep(files, oldest), timeline, segment) <==>
            && Holds(files, timeline, segment)
            && (oldest.Some? ==> !Before(timeline, segment, oldest.value.timeline, oldest.value.lsn / SEGMENT_BYTES))
  {
    if oldest.Some? { DeletableIsEarlier(timeline, segment, oldest.value); }
  }

  /** Retention never makes a hole. The anchor is the start of one kept backup
      and no later than any other's; then every archived segment that a kept
      backup may still replay survives, and what was archived without a gap is
      without one afterwards. */
  lemma RetentionMakesNoHole(files: set<string>, kept: set<Start>, anchor: Start)
    requires anchor in kept && forall b :: b in kept ==> ValidStart(b)
    requires forall b :: b in kept ==>
      !Before(b.timeline, b.lsn / SEGMENT_BYTES, anchor.timeline, anchor.lsn / SEGMENT_BYTES)
    ensures forall b, timeline: nat, segment: nat
              | b in kept && timeline < U32 && segment * SEGMENT_BYTES < U64
                && !Before(timeline, segment, b.timeline, b.lsn / SEGMENT_BYTES) ::
              Holds(files, timeline, segment) ==> Holds(Sweep(files, Some(anchor)), timeline, segment)
    ensures forall timeline: nat | timeline < U32 ::
              Continuous(files, timeline) ==> Continuous(Sweep(files, Some(anchor)), timeline)
    ensures forall f :: f in files && !IsSegmentName(WithoutSuffix(f, ".gz")) ==> f in Sweep(files, Some(anchor))
  {
    var after := Sweep(files, Some(anchor));
    forall timeline: nat, segment: nat | timeline < U32 && segment * SEGMENT_BYTES < U64
      ensures Holds(after, timeline, segment) <==>
              Holds(files, timeline, segment)
              && !Before(timeline, segment, anchor.timeline, anchor.lsn / SEGMENT_BYTES)
    {
      SweepKeeps(files, timeline, segment, Some(anchor));
    }
  }

  /** Between two archived segments of a timeline, every segment is archived. */
  ghost predicate Continuous(files: set<string>, timeline: nat)
    requires timeline < U32
  {
    forall a: nat, b: nat, c: nat | a <= b <= c && c * SEGMENT_BYTES < U64 ::
      Holds(files, timeline, a) && Holds(files, timeline, c) ==> Holds(files, timeline, b)
  }
}
