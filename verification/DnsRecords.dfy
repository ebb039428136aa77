/** What a DNS record says (src/domain/values/record_data.rs): it is parsed once,
    stored as a value and a priority, and has to read back as the same record on
    the node it is sent to.

    AAAA is left out: IPv6 addresses are the standard library's.
 */
module DnsRecords {
  import opened Text
  import opened DnsNames

  datatype Kind = KindA | KindCname | KindMx | KindTxt | KindSrv | KindCaa

  datatype Record =
    | A(address: Ipv4)
    | Cname(target: string)
    | Mx(priority: nat, exchange: string)
    | Txt(text: string)
    | Srv(priority: nat, weight: nat, port: nat, target: string)
    | Caa(critical: bool, tag: string, authority: string)

  datatype Error = NotAnIpv4 | NotATarget | NoPriority | EmptyText | TextTooLong | BadSrv | BadCaa

  const TEXT_LIMIT := 2048

  const U16_MAX := 65535

  // ---------- IPv4 addresses ----------

  datatype Ipv4 = Ipv4(a: nat, b: nat, c: nat, d: nat)

  predicate IsIpv4(ip: Ipv4) { ip.a <= 255 && ip.b <= 255 && ip.c <= 255 && ip.d <= 255 }

  /** One part as the standard library reads it: up to three digits, none of
      them a leading zero, and no more than 255. */
  function Octet(s: string): Option<nat> {
    if s == "" || |s| > 3 || !AllDigits(s) || (|s| > 1 && s[0] == '0') then None
    else if DigitsValue(s) > 255 then None
    else Some(DigitsValue(s))
  }

  function ParseIpv4(s: string): Option<Ipv4> {
    var parts := Split(s, '.');
    if |parts| != 4 then None else
      match (Octet(parts[0]), Octet(parts[1]), Octet(parts[2]), Octet(parts[3]))
      case (Some(a), Some(b), Some(c), Some(d)) => Some(Ipv4(a, b, c, d))
      case _ => None
  }

  function Octets(ip: Ipv4): seq<string> { [Decimal(ip.a), Decimal(ip.b), Decimal(ip.c), Decimal(ip.d)] }

  function ShowIpv4(ip: Ipv4): string { Join(Octets(ip), ".") }

  lemma ShortDecimal(n: nat)
    requires n <= 255
    ensures |Decimal(n)| <= 3
  {
    if n >= 10 {
      assert Decimal(n) == Decimal(n / 10) + [DigitChar(n % 10)];
      if n >= 100 { assert Decimal(n / 10) == Decimal(n / 100) + [DigitChar(n / 10 % 10)]; }
    }
  }

  /** A part reads as a number exactly if it is how that number is written. */
  lemma OctetIs(s: string, n: nat)
    ensures Octet(s) == Some(n) <==> n <= 255 && s == Decimal(n)
  {
    if Octet(s) == Some(n) { DecimalOfValue(s); }
    if n <= 255 && s == Decimal(n) {
      ShortDecimal(n);
      DecimalValue(n);
    }
  }

  lemma NoDotInDigits(s: string)
    requires AllDigits(s)
    ensures '.' !in s
  {
  }

  lemma NoDotsInOctets(ip: Ipv4)
    ensures forall i :: 0 <= i < |Octets(ip)| ==> '.' !in Octets(ip)[i]
  {
    hide Text.Decimal;
    NoDotInDigits(Decimal(ip.a));
    NoDotInDigits(Decimal(ip.b));
    NoDotInDigits(Decimal(ip.c));
    NoDotInDigits(Decimal(ip.d));
  }

  lemma OctetsAre(parts: seq<string>, ip: Ipv4)
    requires |parts| == 4
    ensures IsIpv4(ip) && parts == Octets(ip)
            <==> Octet(parts[0]) == Some(ip.a) && Octet(parts[1]) == Some(ip.b)
                 && Octet(parts[2]) == Some(ip.c) && Octet(parts[3]) == Some(ip.d)
  {
    hide Text.Decimal, Octet;
    OctetIs(parts[0], ip.a);
    OctetIs(parts[1], ip.b);
    OctetIs(parts[2], ip.c);
    OctetIs(parts[3], ip.d);
    assert parts == [parts[0], parts[1], parts[2], parts[3]];
  }

  /** An address is read from exactly one text: the one it is written as. */
  lemma Ipv4ReadsBack(s: string, ip: Ipv4)
    ensures ParseIpv4(s) == Some(ip) <==> IsIpv4(ip) && s == ShowIpv4(ip)
  {
    hide Text.Split, Text.Join, Text.Decimal, Octet;
    var parts := Split(s, '.');
    if |parts| == 4 { OctetsAre(parts, ip); }
    JoinSplit(s, '.');
    NoDotsInOctets(ip);
    SplitJoin(Octets(ip), '.');
    OctetsAre(Octets(ip), ip);
  }

  // ---------- parsing ----------

  function PriorityOf(priority: Option<string>): Result<nat, Error> {
    if priority.None? || Trim(priority.value) == "" then Err(NoPriority)
    else match ParseUnsigned(Trim(priority.value), U16_MAX)
      case Some(n) => Ok(n)
      case None => Err(NoPriority)
  }

  function UnderscoreAsLetter(c: char): char { if c == '_' then 'a' else c }

  function WithoutUnderscores(s: string): (r: string)
    ensures |r| == |s|
    ensures forall i :: 0 <= i < |s| ==> r[i] == UnderscoreAsLetter(s[i])
  {
    seq(|s|, i requires 0 <= i < |s| => UnderscoreAsLetter(s[i]))
  }

  predicate IsTargetLabel(part: string) { IsHostLabel(WithoutUnderscores(part)) }

  predicate AreTargetLabels(labels: seq<string>) {
    forall i :: 0 <= i < |labels| ==> IsTargetLabel(labels[i])
  }

  predicate IsTarget(name: string) {
    |Split(name, '.')| >= 2 && Utf8Len(name) <= 253 && AreTargetLabels(Split(name, '.'))
  }

  function TargetOf(typed: string): Result<string, Error> {
    var name := Normal(Trim(typed));
    if IsTarget(name) then Ok(name) else Err(NotATarget)
  }

  /** Between one quote and another, with only a space between them: where a
      provider cut a long text in two. */
  const SEAM := "\" \""

  function WithoutSeams(s: string): (r: string)
    ensures |r| <= |s|
  {
    if s == "" then ""
    else if StartsWith(s, SEAM) then WithoutSeams(s[3..])
    else [s[0]] + WithoutSeams(s[1..])
  }

  predicate Quoted(s: string) { |s| >= 2 && s[0] == '"' && s[|s| - 1] == '"' }

  function TextOf(typed: string): Result<string, Error> {
    var unquoted := if Quoted(typed) then WithoutSeams(typed[1..|typed| - 1]) else typed;
    if unquoted == "" then Err(EmptyText)
    else if Utf8Len(unquoted) > TEXT_LIMIT then Err(TextTooLong)
    else Ok(unquoted)
  }

  function SrvOf(parts: seq<string>, priority: Option<string>): Result<Record, Error> {
    if |parts| != 3 then Err(BadSrv)
    else match PriorityOf(priority)
      case Err(e) => Err(e)
      case Ok(p) =>
        match (ParseUnsigned(parts[0], U16_MAX), ParseUnsigned(parts[1], U16_MAX))
        case (Some(weight), Some(port)) =>
          (match TargetOf(parts[2]) case Ok(t) => Ok(Srv(p, weight, port, t)) case Err(e) => Err(e))
        case _ => Err(BadSrv)
  }

  /** The first word is the flags if it reads as a byte; the top bit is the
      critical one. */
  function CaaOf(words: seq<string>): Result<Record, Error> {
    if words == [] then Err(BadCaa)
    else match ParseUnsigned(words[0], 255)
      case Some(flags) => TaggedOf(flags / 128 % 2 == 1, words[1..])
      case None => TaggedOf(false, words)
  }

  function TaggedOf(critical: bool, parts: seq<string>): Result<Record, Error> {
    if parts == [] then Err(BadCaa)
    else
      var tag, authority := Lower(parts[0]), TrimOf(Join(parts[1..], " "), '"');
      if !IsTag(tag) || authority == "" then Err(BadCaa) else Ok(Caa(critical, tag, authority))
  }

  predicate IsTag(tag: string) { tag == "issue" || tag == "issuewild" }

  /** `RecordData::parse`. */
  function Parse(kind: Kind, typed: string, priority: Option<string>): Result<Record, Error> {
    var value := Trim(typed);
    match kind
    case KindA => (match ParseIpv4(value) case Some(ip) => Ok(A(ip)) case None => Err(NotAnIpv4))
    case KindCname => (match TargetOf(value) case Ok(t) => Ok(Cname(t)) case Err(e) => Err(e))
    case KindMx => MxOf(value, priority)
    case KindTxt => (match TextOf(value) case Ok(t) => Ok(Txt(t)) case Err(e) => Err(e))
    case KindSrv => SrvOf(Words(value), priority)
    case KindCaa => CaaOf(Words(value))
  }

  function MxOf(value: string, priority: Option<string>): Result<Record, Error> {
    match PriorityOf(priority)
    case Err(e) => Err(e)
    case Ok(p) => match TargetOf(value) case Ok(t) => Ok(Mx(p, t)) case Err(e) => Err(e)
  }

  // ---------- printing ----------

  function KindOf(r: Record): Kind {
    match r
    case A(_) => KindA
    case Cname(_) => KindCname
    case Mx(_, _) => KindMx
    case Txt(_) => KindTxt
    case Srv(_, _, _, _) => KindSrv
    case Caa(_, _, _) => KindCaa
  }

  function Flags(critical: bool): string { if critical then "128" else "0" }

  function Value(r: Record): string {
    match r
    case A(ip) => ShowIpv4(ip)
    case Cname(t) => t
    case Mx(_, t) => t
    case Txt(t) => t
    case Srv(_, weight, port, t) => Decimal(weight) + " " + Decimal(port) + " " + t
    case Caa(critical, tag, authority) => Flags(critical) + " " + tag + " " + authority
  }

  /** The priority as it is stored, written out. */
  function PriorityText(r: Record): Option<string> {
    if r.Mx? || r.Srv? then Some(Decimal(r.priority)) else None
  }

  /** The record as another node reads it. */
  function ReadBack(r: Record): Result<Record, Error> { Parse(KindOf(r), Value(r), PriorityText(r)) }

  // ---------- records, as they are typed ----------

  lemma TargetLabelIs(part: string)
    ensures IsTargetLabel(part) <==> DnsLabel(part, true)
  {
    hide Text.Utf8Len, Text.Utf8Width;
    var plain := WithoutUnderscores(part);
    SameWidths(part, plain);
    LabelsAre(plain);
    LabelsAre(part);
    if DnsLabel(plain, false) {
      forall i | 0 <= i < |part|
        ensures 'a' <= part[i] <= 'z' || '0' <= part[i] <= '9' || part[i] == '-' || part[i] == '_'
      {
        assert plain[i] == UnderscoreAsLetter(part[i]);
      }
    }
  }

  lemma {:induction false} SameWidths(part: string, plain: string)
    requires |part| == |plain| && forall i :: 0 <= i < |part| ==> plain[i] == UnderscoreAsLetter(part[i])
    ensures Utf8Len(part) == Utf8Len(plain)
  {
    if part != "" { SameWidths(part[1..], plain[1..]); }
  }

  /** A target, written out: two labels or more, underscores among the letters, and
      253 characters at most. */
  lemma TargetsAre(name: string)
    ensures IsTarget(name) <==>
              && |Split(name, '.')| >= 2 && |name| <= 253
              && forall i :: 0 <= i < |Split(name, '.')| ==> DnsLabel(Split(name, '.')[i], true)
  {
    hide Text.Split, Text.Utf8Len, IsTargetLabel, DnsNames.DnsLabel;
    var labels := Split(name, '.');
    forall i | 0 <= i < |labels|
      ensures IsTargetLabel(labels[i]) <==> DnsLabel(labels[i], true)
    {
      TargetLabelIs(labels[i]);
    }
    Utf8LenAtLeast(name);
    if AreTargetLabels(labels) { TargetIsAscii(name); }
  }

  lemma TargetIsAscii(name: string)
    requires AreTargetLabels(Split(name, '.'))
    ensures Utf8Len(name) == |name|
  {
    hide Text.Split, Text.Utf8Len, IsTargetLabel;
    var labels := Split(name, '.');
    forall i | 0 <= i < |labels|
      ensures AllOf(IsNameChar, labels[i])
    {
      TargetLabelShape(labels[i]);
    }
    NameChars(IsNameChar, name);
    forall i | 0 <= i < |name|
      ensures IsAscii(name[i])
    {
      assert IsNameChar(name[i]);
    }
    Utf8LenAscii(name);
  }

  /** A target typed in any case, with any dots after it and whitespace around it. */
  lemma TypedTargetIsRead(target: string, typed: string, dots: string, lead: string, trail: string,
      priority: Option<string>)
    requires IsTarget(target) && Lowers(typed, target) && AllAre(dots, '.') && Blank(lead) && Blank(trail)
    ensures Parse(KindCname, lead + (typed + dots) + trail, priority) == Ok(Cname(target))
  {
    hide Text.Trim, Text.Trimmed, IsTarget, DnsNames.Normal, Text.TrimEndOf, Text.Blank;
    TargetIsSame(target);
    NamesAreWords(target);
    TypedIsTrimmed(target, typed, dots);
    TrimPadded(lead, typed + dots, trail);
    TrimmedIsTrim(typed + dots);
    TargetEnds(target);
    NormalIs(target, typed, dots);
  }

  lemma TargetEnds(target: string)
    requires IsTarget(target)
    ensures target != "" && target[|target| - 1] != '.'
  {
    hide Text.Split, Text.Utf8Len, IsTargetLabel;
    var labels := Split(target, '.');
    JoinSplit(target, '.');
    forall i | 0 <= i < |labels|
      ensures labels[i] != ""
    {
      TargetLabelShape(labels[i]);
    }
    JoinEnds(labels, ".");
    LastIsNoDot(labels);
  }

  lemma TypedIsTrimmed(target: string, typed: string, dots: string)
    requires Lowers(typed, target) && Trimmed(target) && AllAre(dots, '.')
    ensures Trimmed(typed + dots)
  {
  }

  /** A priority is a number up to 65535 between any whitespace, and there is no other. */
  lemma PriorityIsRead(n: nat, lead: string, trail: string)
    requires Blank(lead) && Blank(trail)
    ensures PriorityOf(Some(lead + Decimal(n) + trail)) == if n <= 65535 then Ok(n) else Err(NoPriority)
    ensures PriorityOf(None) == Err(NoPriority) && PriorityOf(Some(lead)) == Err(NoPriority)
  {
    hide Text.Decimal, Text.Trim, Text.ParseUnsigned;
    DecimalsAreWords(n);
    TrimPadded(lead, Decimal(n), trail);
    TrimIsEmpty(lead);
    ParseDecimal(n, 65535);
  }

  /** A service record is typed as weight, port and target, in this order. */
  lemma ServiceIsRead(priority: nat, weight: nat, port: nat, target: string)
    requires priority <= 65535 && weight <= 65535 && port <= 65535 && IsTarget(target)
    ensures Parse(KindSrv, Decimal(weight) + " " + Decimal(port) + " " + target, Some(Decimal(priority)))
            == Ok(Srv(priority, weight, port, target))
  {
    hide Parse;
    SrvReadsBack(Srv(priority, weight, port, target));
  }

  /** A flags byte is critical from 128 on, a tag may be typed in any case, and an
      authority in quotes; without flags it is not critical. */
  lemma AuthorityIsRead(flags: nat, typed: string, tag: string, authority: string, priority: Option<string>)
    requires flags <= 255 && (tag == "issue" || tag == "issuewild") && Lowers(typed, tag)
    requires IsWord(authority) && Unquoted(authority)
    ensures Parse(KindCaa, Decimal(flags) + " " + typed + " " + authority, priority)
            == Ok(Caa(flags >= 128, tag, authority))
    ensures Parse(KindCaa, Decimal(flags) + " " + typed + " " + ("\"" + authority + "\""), priority)
            == Ok(Caa(flags >= 128, tag, authority))
    ensures Parse(KindCaa, typed + " " + authority, priority) == Ok(Caa(false, tag, authority))
  {
    hide Text.Trim, Text.Words, Text.Decimal, Text.ParseUnsigned, TaggedOf, Text.Lowers;
    DecimalsAreWords(flags);
    TypedTagIsAWord(typed, tag);
    ParseDecimal(flags, 255);
    var quoted := "\"" + authority + "\"";
    ThreeWords(Decimal(flags), typed, authority);
    ThreeWords(Decimal(flags), typed, quoted);
    TwoWords(typed, authority);
    assert [Decimal(flags), typed, authority][1..] == [typed, authority];
    assert [Decimal(flags), typed, quoted][1..] == [typed, quoted];
    NotANumber(typed);
    TaggedIs(flags >= 128, typed, tag, authority);
    TaggedIs(false, typed, tag, authority);
  }

  lemma TypedTagIsAWord(typed: string, tag: string)
    requires (tag == "issue" || tag == "issuewild") && Lowers(typed, tag)
    ensures IsWord(typed) && !IsDigit(typed[0]) && typed[0] != '+'
  {
    forall i | 0 <= i < |typed|
      ensures !IsWhitespace(typed[i])
    {
      assert 'a' <= tag[i] <= 'z';
    }
  }

  lemma TwoWords(a: string, b: string)
    requires IsWord(a) && IsWord(b)
    ensures Trim(a + " " + b) == a + " " + b
    ensures Words(a + " " + b) == [a, b]
  {
    hide Text.Trim, Text.Words;
    TrimmedIsTrim(a + " " + b);
    WordsOfFirst(a, b);
    WordsOfWord(b);
  }

  lemma TaggedIs(critical: bool, typed: string, tag: string, authority: string)
    requires (tag == "issue" || tag == "issuewild") && Lowers(typed, tag)
    requires authority != "" && Unquoted(authority)
    ensures TaggedOf(critical, [typed, authority]) == Ok(Caa(critical, tag, authority))
    ensures TaggedOf(critical, [typed, "\"" + authority + "\""]) == Ok(Caa(critical, tag, authority))
  {
    hide Text.Join, Text.TrimOf;
    var quoted := "\"" + authority + "\"";
    LowersIs(typed, tag);
    assert [typed, authority][1..] == [authority] && [typed, quoted][1..] == [quoted];
    JoinOne(authority, " ");
    JoinOne(quoted, " ");
    assert quoted == ['"'] + authority + ['"'];
    OneOff(authority, '"');
    UnquotedStays(authority);
  }

  lemma UnquotedStays(s: string)
    requires Unquoted(s)
    ensures TrimOf(s, '"') == s
  {
  }

  // ---------- what parsing gives ----------

  /** No quote at either end. */
  predicate Unquoted(s: string) { s == "" || (s[0] != '"' && s[|s| - 1] != '"') }

  predicate WellFormed(r: Record) {
    match r
    case A(ip) => IsIpv4(ip)
    case Cname(t) => IsTarget(t)
    case Mx(p, t) => p <= 65535 && IsTarget(t)
    case Txt(t) => t != "" && Utf8Len(t) <= 2048
    case Srv(p, weight, port, t) => p <= 65535 && weight <= 65535 && port <= 65535 && IsTarget(t)
    case Caa(_, tag, authority) => IsTag(tag) && authority != "" && SingleSpaced(authority) && Unquoted(authority)
  }

  lemma TrimOfPart(s: string, c: char) returns (i: nat, j: nat)
    ensures i <= j <= |s| && TrimOf(s, c) == s[i..j]
  {
    hide Text.TrimEndOf, Text.TrimStartOf;
    var e := TrimEndOf(s, c);
    var t := TrimStartOf(e, c);
    i, j := |e| - |t|, |e|;
    assert TrimOf(s, c) == t by { hide Text.IsWhitespace; }
    hide *;
    assert e == s[..j] && t == e[i..];
    SliceOfPrefix(s, i, j);
  }

  lemma TaggedIsWellFormed(critical: bool, parts: seq<string>)
    requires AreWords(parts) && TaggedOf(critical, parts).Ok?
    ensures WellFormed(TaggedOf(critical, parts).value) && TaggedOf(critical, parts).value.Caa?
  {
    hide Text.Join, Text.TrimOf, Text.SingleSpaced;
    var joined := Join(parts[1..], " ");
    JoinedWords(parts[1..]);
    var i, j := TrimOfPart(joined, '"');
    SingleSpacedPart(joined, i, j);
  }

  /** An accepted record is well formed and of the kind it was parsed as. */
  lemma AcceptedIsWellFormed(kind: Kind, typed: string, priority: Option<string>)
    requires Parse(kind, typed, priority).Ok?
    ensures var r := Parse(kind, typed, priority).value; WellFormed(r) && KindOf(r) == kind
  {
    hide Text.Trim, Text.Words, IsTarget, ParseIpv4, ShowIpv4, DnsNames.Normal, Text.SingleSpaced, TaggedOf;
    var value := Trim(typed);
    match kind
    case KindA => if ParseIpv4(value).Some? { Ipv4ReadsBack(value, ParseIpv4(value).value); }
    case KindCaa =>
      var words := Words(value);
      WordsAreWords(value);
      if ParseUnsigned(words[0], 255).Some? {
        TaggedIsWellFormed(ParseUnsigned(words[0], 255).value / 128 % 2 == 1, words[1..]);
      } else {
        TaggedIsWellFormed(false, words);
      }
    case _ =>
  }

  // ---------- what reads back ----------

  lemma TargetLabelShape(part: string)
    requires IsTargetLabel(part)
    ensures part != "" && AllOf(IsNameChar, part)
  {
    hide Text.Utf8Len;
    var plain := WithoutUnderscores(part);
    forall i | 0 <= i < |part|
      ensures IsNameChar(part[i])
    {
      assert IsHostChar(plain[i]);
    }
  }

  /** A target is its own normal form. */
  lemma TargetIsSame(name: string)
    requires IsTarget(name)
    ensures AllOf(IsNameChar, name) && name != "" && TargetOf(name) == Ok(name)
  {
    hide Text.Split, Text.Join, Text.Utf8Len, Text.Trim, DnsNames.Normal, IsTargetLabel;
    var labels := Split(name, '.');
    JoinSplit(name, '.');
    forall i | 0 <= i < |labels|
      ensures labels[i] != "" && AllOf(IsNameChar, labels[i])
    {
      TargetLabelShape(labels[i]);
    }
    JoinEnds(labels, ".");
    NameChars(IsNameChar, name);
    LastIsNoDot(labels);
    NormalIsSame(name);
  }

  lemma LastIsNoDot(labels: seq<string>)
    requires labels != [] && labels[|labels| - 1] != "" && '.' !in labels[|labels| - 1]
    ensures labels[|labels| - 1][|labels[|labels| - 1]| - 1] != '.'
  {
  }

  lemma NamesAreWords(name: string)
    requires AllOf(IsNameChar, name) && name != ""
    ensures IsWord(name) && Trimmed(name)
  {
  }

  lemma DecimalsAreWords(n: nat)
    ensures IsWord(Decimal(n)) && Trimmed(Decimal(n))
  {
    hide Text.Decimal;
    assert AllDigits(Decimal(n));
  }

  lemma TrimmedIsTrim(s: string)
    requires Trimmed(s)
    ensures Trim(s) == s
  {
    TrimIsTrimmed(s);
  }

  lemma PriorityReadsBack(p: nat)
    requires p <= U16_MAX
    ensures PriorityOf(Some(Decimal(p))) == Ok(p)
  {
    hide Text.Decimal, Text.Trim, Text.ParseUnsigned;
    DecimalsAreWords(p);
    TrimmedIsTrim(Decimal(p));
    ParseDecimal(p, U16_MAX);
  }

  lemma AReadsBack(r: Record)
    requires WellFormed(r) && r.A?
    ensures ReadBack(r) == Ok(r)
  {
    hide ParseIpv4, Text.Trim, Text.Join, Text.Decimal;
    var s := ShowIpv4(r.address);
    Ipv4ReadsBack(s, r.address);
    AddressIsTrimmed(r.address);
    TrimmedIsTrim(s);
  }

  lemma AddressIsTrimmed(ip: Ipv4)
    ensures Trimmed(ShowIpv4(ip))
  {
    hide Text.Join, Text.Decimal;
    DecimalsAreWords(ip.a);
    DecimalsAreWords(ip.d);
    JoinEnds(Octets(ip), ".");
  }

  lemma CnameReadsBack(r: Record)
    requires WellFormed(r) && r.Cname?
    ensures ReadBack(r) == Ok(r)
  {
    hide Text.Trim, IsTarget, DnsNames.Normal, TargetOf;
    TargetIsSame(r.target);
    NamesAreWords(r.target);
    TrimmedIsTrim(r.target);
  }

  lemma MxReadsBack(r: Record)
    requires WellFormed(r) && r.Mx?
    ensures ReadBack(r) == Ok(r)
  {
    hide Text.Trim, IsTarget, TargetOf, PriorityOf, Text.Decimal;
    TargetIsSame(r.exchange);
    NamesAreWords(r.exchange);
    TrimmedIsTrim(r.exchange);
    PriorityReadsBack(r.priority);
  }

  /** Three words with single spaces between them. */
  lemma ThreeWords(a: string, b: string, c: string)
    requires IsWord(a) && IsWord(b) && IsWord(c)
    ensures Trim(a + " " + b + " " + c) == a + " " + b + " " + c
    ensures Words(a + " " + b + " " + c) == [a, b, c]
  {
    hide Text.Trim, Text.Words;
    var s := a + " " + b + " " + c;
    TrimmedIsTrim(s);
    assert s == a + " " + (b + " " + c);
    WordsOfFirst(a, b + " " + c);
    WordsOfFirst(b, c);
    WordsOfWord(c);
  }

  lemma SrvReadsBack(r: Record)
    requires WellFormed(r) && r.Srv?
    ensures ReadBack(r) == Ok(r)
  {
    hide Text.Trim, Text.Words, IsTarget, TargetOf, PriorityOf, Text.Decimal, Text.ParseUnsigned;
    TargetIsSame(r.target);
    NamesAreWords(r.target);
    DecimalsAreWords(r.weight);
    DecimalsAreWords(r.port);
    ThreeWords(Decimal(r.weight), Decimal(r.port), r.target);
    ParseDecimal(r.weight, U16_MAX);
    ParseDecimal(r.port, U16_MAX);
    PriorityReadsBack(r.priority);
  }

  /** A text reads back exactly if it has no whitespace at its ends and is not
      between quotes. */
  lemma TxtReadsBack(r: Record)
    requires WellFormed(r) && r.Txt?
    ensures ReadBack(r) == Ok(r) <==> Trimmed(r.text) && !Quoted(r.text)
  {
    hide Text.Trim, Text.Utf8Len;
    TrimIsTrimmed(r.text);
  }

  lemma FlagsRead(critical: bool)
    ensures IsWord(Flags(critical)) && AllDigits(Flags(critical))
    ensures ParseUnsigned(Flags(critical), 255) == Some(if critical then 128 else 0)
  {
    assert Decimal(0) == "0";
    ParseDecimal(0, 255);
    assert Decimal(128) == "128" by {
      assert Decimal(1) == "1" && Decimal(12) == "12";
    }
    ParseDecimal(128, 255);
  }

  /** How a CAA record reads back: its authority loses the whitespace at its ends. */
  lemma CaaReadBack(r: Record)
    requires WellFormed(r) && r.Caa?
    ensures var authority := TrimOf(Trim(r.authority), '"');
            ReadBack(r) == if authority == "" then Err(BadCaa) else Ok(r.(authority := authority))
  {
    hide Text.Trim, Text.Words, Text.TrimOf, Text.SingleSpaced, Text.Join, Text.ParseUnsigned;
    FlagsRead(r.critical);
    TagIsAWord(r.tag);
    var flags := Flags(r.critical);
    assert Value(r) == flags + " " + (r.tag + " " + r.authority);
    WordsTrim(Value(r));
    WordsOfFirst(flags, r.tag + " " + r.authority);
    WordsOfFirst(r.tag, r.authority);
    TrimKeepsSpacing(r.authority);
    WordsTrim(r.authority);
    JoinWords(Trim(r.authority));
    assert ([flags] + ([r.tag] + Words(r.authority)))[1..] == [r.tag] + Words(r.authority);
    assert ([r.tag] + Words(r.authority))[1..] == Words(r.authority);
  }

  lemma TagIsAWord(tag: string)
    requires IsTag(tag)
    ensures IsWord(tag) && Lower(tag) == tag
  {
    LowerIsLower(tag);
  }

  lemma TrimKeepsSpacing(s: string)
    requires SingleSpaced(s)
    ensures SingleSpaced(Trim(s)) && Trimmed(Trim(s))
  {
    hide Text.SingleSpaced, Text.TrimStart, Text.TrimEnd;
    TrimIsTrimmed(s);
    var e := TrimEnd(s);
    var i := |e| - |TrimStart(e)|;
    SliceOfPrefix(s, i, |e|);
    SingleSpacedPart(s, i, |e|);
  }

  predicate OuterSpace(s: string) { s != "" && (s[0] == ' ' || s[|s| - 1] == ' ') }

  /** A CAA record reads back exactly if its authority has no space at its ends. */
  lemma CaaReadsBack(r: Record)
    requires WellFormed(r) && r.Caa?
    ensures ReadBack(r) == Ok(r) <==> !OuterSpace(r.authority)
  {
    hide Text.Trim, Text.TrimOf, ReadBack;
    CaaReadBack(r);
    TrimIsTrimmed(r.authority);
    OuterSpaceIs(r.authority);
  }

  lemma OuterSpaceIs(s: string)
    requires SingleSpaced(s)
    ensures OuterSpace(s) <==> !Trimmed(s)
  {
    if s != "" { assert IsWhitespace(s[0]) ==> s[0] == ' '; }
  }

  predicate ReadsBack(r: Record) {
    match r
    case Txt(text) => Trimmed(text) && !Quoted(text)
    case Caa(_, _, authority) => !OuterSpace(authority)
    case _ => true
  }

  /** Whatever was typed, a stored A, CNAME, MX or SRV record reads back as
      itself; a TXT or CAA record does exactly if nothing stands at the ends of
      its text that reading takes for padding or quotes. */
  lemma StoredRecordReadsBack(kind: Kind, typed: string, priority: Option<string>)
    requires Parse(kind, typed, priority).Ok?
    ensures var r := Parse(kind, typed, priority).value;
            ReadBack(r) == Ok(r) <==> ReadsBack(r)
  {
    hide Parse, ReadBack, WellFormed;
    var r := Parse(kind, typed, priority).value;
    AcceptedIsWellFormed(kind, typed, priority);
    match r
    case A(_) => AReadsBack(r);
    case Cname(_) => CnameReadsBack(r);
    case Mx(_, _) => MxReadsBack(r);
    case Txt(_) => TxtReadsBack(r);
    case Srv(_, _, _, _) => SrvReadsBack(r);
    case Caa(_, _, _) => CaaReadsBack(r);
  }

  // ---------- what is typed and does not read back ----------

  predicate HasSeam(s: string) { exists i | 0 <= i < |s| :: At(s, i, "\" \"") }

  lemma FurtherOn(s: string, i: nat, word: string)
    requires s != "" && At(s[1..], i, word)
    ensures At(s, i + 1, word)
  {
    assert s[1..][i..i + |word|] == s[i + 1..i + 1 + |word|];
  }

  lemma NoSeamFurtherOn(s: string)
    requires s != "" && !HasSeam(s)
    ensures !HasSeam(s[1..]) && !StartsWith(s, SEAM)
  {
    hide Text.At;
    forall i | 0 <= i < |s[1..]|
      ensures !At(s[1..], i, SEAM)
    {
      if At(s[1..], i, SEAM) { FurtherOn(s, i, SEAM); }
    }
    assert !At(s, 0, SEAM);
    AtTheStart(s, SEAM);
  }

  lemma AtTheStart(s: string, word: string)
    ensures At(s, 0, word) == StartsWith(s, word)
  {
  }

  lemma {:induction false} NoSeamToTake(s: string)
    requires !HasSeam(s)
    ensures WithoutSeams(s) == s
  {
    hide HasSeam, Text.StartsWith;
    if s != "" {
      NoSeamFurtherOn(s);
      NoSeamToTake(s[1..]);
    }
  }

  /** The first seam in the part and the seam after it is that one. */
  predicate EndsAtSeam(part: string) {
    forall i :: 0 <= i < |part| ==> !At(part + "\" \"", i, "\" \"")
  }

  lemma SeamComesOut(rest: string)
    ensures WithoutSeams("\" \"" + rest) == WithoutSeams(rest)
  {
    var s := "\" \"" + rest;
    assert s[..3] == "\" \"" && s[3..] == rest;
  }

  lemma EndsAtSeamFurtherOn(part: string)
    requires part != "" && EndsAtSeam(part)
    ensures EndsAtSeam(part[1..])
  {
    hide Text.At;
    var s := part + "\" \"";
    assert s[1..] == part[1..] + "\" \"";
    forall i | 0 <= i < |part[1..]|
      ensures !At(part[1..] + "\" \"", i, "\" \"")
    {
      if At(s[1..], i, "\" \"") { FurtherOn(s, i, "\" \""); }
    }
  }

  lemma NoSeamYet(part: string, rest: string)
    requires part != "" && EndsAtSeam(part)
    ensures !StartsWith(part + ("\" \"" + rest), SEAM)
  {
    var s := part + "\" \"";
    assert !At(s, 0, "\" \"");
    assert part + ("\" \"" + rest) == s + rest;
    assert (s + rest)[..3] == s[..3] == s[0..0 + 3];
  }

  lemma {:induction false} PartComesThrough(part: string, rest: string)
    requires EndsAtSeam(part)
    ensures WithoutSeams(part + ("\" \"" + rest)) == part + WithoutSeams(rest)
  {
    var s := part + ("\" \"" + rest);
    hide EndsAtSeam;
    if part == "" {
      assert s == "\" \"" + rest;
      SeamComesOut(rest);
    } else {
      NoSeamYet(part, rest);
      EndsAtSeamFurtherOn(part);
      PartComesThrough(part[1..], rest);
      assert s[1..] == part[1..] + ("\" \"" + rest);
    }
  }

  /** A text pasted in pieces, each between quotes and with a space between them. */
  predicate Pieces(parts: seq<string>) {
    && parts != []
    && (forall i :: 0 <= i < |parts| - 1 ==> EndsAtSeam(parts[i]))
    && !HasSeam(parts[|parts| - 1])
  }

  lemma {:induction false} SeamsComeOut(parts: seq<string>)
    requires Pieces(parts)
    ensures WithoutSeams(Join(parts, "\" \"")) == Concat(parts)
  {
    hide WithoutSeams, EndsAtSeam, HasSeam;
    if |parts| == 1 {
      NoSeamToTake(parts[0]);
      assert Concat(parts[1..]) == "";
    } else {
      PartComesThrough(parts[0], Join(parts[1..], "\" \""));
      assert parts[0] + "\" \"" + Join(parts[1..], "\" \"") == parts[0] + ("\" \"" + Join(parts[1..], "\" \""));
      SeamsComeOut(parts[1..]);
    }
  }

  /** However many pieces a provider cut a text into, it is accepted as the whole;
      every text between quotes is such pieces. */
  lemma PiecesAreOneText(parts: seq<string>, priority: Option<string>)
    requires Pieces(parts)
    ensures var text := Concat(parts);
            Parse(KindTxt, "\"" + Join(parts, "\" \"") + "\"", priority) ==
            if text == "" then Err(EmptyText) else if Utf8Len(text) > 2048 then Err(TextTooLong) else Ok(Txt(text))
  {
    hide Text.Trim, Text.Utf8Len, WithoutSeams, Text.Join, Concat, Pieces;
    var typed := "\"" + Join(parts, "\" \"") + "\"";
    TrimmedIsTrim(typed);
    assert Quoted(typed) && typed[1..|typed| - 1] == Join(parts, "\" \"");
    SeamsComeOut(parts);
  }

  /** A text without quotes ends at its seam, so pieces without any are pieces. */
  lemma UnquotedPieces(parts: seq<string>)
    requires parts != [] && forall i :: 0 <= i < |parts| ==> '"' !in parts[i]
    ensures Pieces(parts)
  {
    hide Text.At;
    forall i, k | 0 <= i < |parts| && 0 <= k < |parts[i]|
      ensures !At(parts[i] + "\" \"", k, "\" \"") && !At(parts[i], k, "\" \"")
    {
      NoQuoteNoSeam(parts[i], k);
    }
  }

  lemma NoQuoteNoSeam(part: string, k: nat)
    requires '"' !in part && k < |part|
    ensures !At(part + "\" \"", k, "\" \"") && !At(part, k, "\" \"")
  {
    AtBegins(part + "\" \"", k, "\" \"");
    AtBegins(part, k, "\" \"");
  }

  lemma AtBegins(s: string, k: nat, word: string)
    requires word != ""
    ensures At(s, k, word) ==> s[k] == word[0]
  {
    if At(s, k, word) { assert s[k..k + |word|][0] == s[k]; }
  }

  /** Between quotes any text is accepted as it stands, so texts that do not read back
      are: those with whitespace at their ends, and those in quotes of their own. */
  lemma QuotedTextIsAccepted(text: string, priority: Option<string>)
    requires text != "" && Utf8Len(text) <= 2048 && !HasSeam(text)
    ensures Parse(KindTxt, "\"" + text + "\"", priority) == Ok(Txt(text))
    ensures !Trimmed(text) || Quoted(text) ==> ReadBack(Txt(text)) != Ok(Txt(text))
  {
    hide Text.Trim, Text.Utf8Len, WithoutSeams;
    var typed := "\"" + text + "\"";
    TrimmedIsTrim(typed);
    assert Quoted(typed) && typed[1..|typed| - 1] == text;
    NoSeamToTake(text);
    TxtReadsBack(Txt(text));
  }

  /** One is a text with a space before it. */
  lemma PaddedTextIsLost()
    ensures Parse(KindTxt, "\" a\"", None) == Ok(Txt(" a")) && ReadBack(Txt(" a")) != Ok(Txt(" a"))
  {
    hide Text.Trim, WithoutSeams;
    var text := " a";
    Utf8LenAscii(text);
    forall i | 0 <= i < |text|
      ensures !At(text, i, SEAM)
    {
    }
    assert "\"" + text + "\"" == "\" a\"";
    QuotedTextIsAccepted(text, None);
  }

  /** An authority between quotes with spaces inside them is accepted with the spaces,
      and does not read back with them. */
  lemma SpacedAuthorityIsLost(word: string, priority: Option<string>)
    requires IsWord(word) && Unquoted(word)
    ensures var r := Caa(false, "issue", " " + word + " ");
            Parse(KindCaa, "issue \" " + word + " \"", priority) == Ok(r) && ReadBack(r) != Ok(r)
  {
    hide Text.Trim, Text.Words, Text.Join, Text.TrimOf, Text.ParseUnsigned, ReadBack;
    var typed, r := "issue \" " + word + " \"", Caa(false, "issue", " " + word + " ");
    TrimmedIsTrim(typed);
    assert typed == "issue" + " " + ("\"" + " " + (word + " " + "\""));
    WordsOfFirst("issue", "\"" + " " + (word + " " + "\""));
    WordsOfFirst("\"", word + " " + "\"");
    WordsOfFirst(word, "\"");
    WordsOfWord("\"");
    assert Words(typed) == ["issue", "\"", word, "\""];
    NotANumber("issue");
    QuotesComeOff(word);
    TagIsAWord("issue");
    assert Words(typed)[1..] == ["\"", word, "\""];
    SpacedIsSingle(word);
    CaaReadsBack(r);
  }

  lemma NotANumber(s: string)
    requires s != "" && !IsDigit(s[0]) && s[0] != '+'
    ensures ParseUnsigned(s, 255).None?
  {
  }

  lemma QuotesComeOff(word: string)
    requires IsWord(word)
    ensures TrimOf(Join(["\"", word, "\""], " "), '"') == " " + word + " "
  {
    hide Text.TrimStartOf, Text.TrimEndOf;
    JoinOne("\"", " ");
    JoinMore(word, ["\""], " ");
    JoinMore("\"", [word, "\""], " ");
    assert [word] + ["\""] == [word, "\""] && ["\""] + [word, "\""] == ["\"", word, "\""];
    var inner := " " + word + " ";
    assert "\"" + " " + (word + " " + "\"") == ['"'] + inner + ['"'];
    OneOff(inner, '"');
  }

  lemma OneOff(inner: string, c: char)
    requires inner != "" && inner[0] != c && inner[|inner| - 1] != c
    ensures TrimOf([c] + inner + [c], c) == inner
  {
    hide Text.TrimEndOf;
    var s := [c] + inner;
    TrimEndOfAll(s, [c], c);
    assert s[|s| - 1] == inner[|inner| - 1] && s[0] == c;
    assert TrimEndOf(s + [c], c) == s;
    assert s[1..] == inner;
  }

  lemma SpacedIsSingle(word: string)
    requires IsWord(word)
    ensures SingleSpaced(" " + word + " ") && Unquoted(" " + word + " ") && OuterSpace(" " + word + " ")
  {
  }

  // ---------- the strings of a text ----------

  const STRING_LIMIT := 255

  function Concat(strings: seq<string>): string {
    if strings == [] then "" else strings[0] + Concat(strings[1..])
  }

  lemma {:induction false} ConcatOneMore(strings: seq<string>, last: string)
    ensures Concat(strings + [last]) == Concat(strings) + last
  {
    if strings == [] {
      assert [] + [last] == [last];
      assert Concat([last]) == last + Concat([]);
    } else {
      assert (strings + [last])[1..] == strings[1..] + [last];
      ConcatOneMore(strings[1..], last);
      ConcatAssociates(strings[0], Concat(strings[1..]), last);
    }
  }

  /** The next string begins with a character the one before had no room for. */
  predicate Full(before: string, next: string) {
    next != "" && Utf8Len(before) + Utf8Width(next[0]) > 255
  }

  /** Every string fits a DNS string (RFC 1035 section 3.3), and none is cut
      before it is full. */
  predicate CutLate(strings: seq<string>) {
    && (forall i :: 0 <= i < |strings| ==> Utf8Len(strings[i]) <= 255)
    && (forall i, j :: 0 <= i < |strings| && j == i + 1 < |strings| ==> Full(strings[i], strings[j]))
  }

  lemma OneWidth(c: char)
    ensures Utf8Len([c]) == Utf8Width(c)
  {
    assert Utf8Len([c][1..]) == 0;
  }

  /** A full string is closed and the next begins with the character that did not fit. */
  lemma NextString(strings: seq<string>, current: string, c: char)
    requires CutLate(strings + [current]) && Full(current, [c])
    ensures CutLate(strings + [current] + [[c]])
  {
    hide Text.Utf8Len;
    OneWidth(c);
    var cut, longer := strings + [current], strings + [current] + [[c]];
    assert forall i :: 0 <= i < |cut| ==> longer[i] == cut[i];
  }

  lemma StringGrows(strings: seq<string>, current: string, c: char)
    requires CutLate(strings + [current]) && Utf8Len(current) + Utf8Width(c) <= STRING_LIMIT
    requires strings != [] ==> current != ""
    ensures CutLate(strings + [current + [c]])
  {
    hide Text.Utf8Len;
    OneWidth(c);
    Utf8LenConcat(current, [c]);
    var cut, longer := strings + [current], strings + [current + [c]];
    assert forall i :: 0 <= i < |strings| ==> longer[i] == cut[i];
    assert cut[|strings|] == current;
  }

  /** `RecordData::text_strings`. */
  method TextStrings(text: string) returns (strings: seq<string>)
    ensures strings != [] && Concat(strings) == text && CutLate(strings)
  {
    hide Text.Utf8Len, CutLate;
    strings := [];
    var current := "";
    Utf8LenAscii("");
    NothingIsCut();
    for k := 0 to |text|
      invariant Concat(strings) + current == text[..k]
      invariant CutLate(strings + [current])
      invariant strings != [] || k > 0 ==> current != ""
    {
      var c := text[k];
      assert text[..k + 1] == text[..k] + [c];
      ConcatAssociates(Concat(strings), current, [c]);
      if Utf8Len(current) + Utf8Width(c) > STRING_LIMIT {
        ConcatOneMore(strings, current);
        NextString(strings, current, c);
        strings := strings + [current];
        current := "";
        assert current + [c] == [c];
      } else {
        StringGrows(strings, current, c);
      }
      current := current + [c];
    }
    assert text[..|text|] == text;
    if current != "" || strings == [] {
      ConcatOneMore(strings, current);
      strings := strings + [current];
    }
  }

  lemma NothingIsCut()
    ensures CutLate([] + [""])
  {
  }

  lemma CutLateRest(strings: seq<string>)
    requires CutLate(strings) && strings != []
    ensures CutLate(strings[1..]) && (|strings| > 1 ==> Full(strings[0], strings[1]))
  {
    hide Text.Utf8Len;
    var rest := strings[1..];
    assert forall i :: 0 <= i < |rest| ==> rest[i] == strings[i + 1];
  }

  /** A string that stops short of another has no room for its next character,
      so it does not. */
  lemma FirstIsNotShorter(a: seq<string>, b: seq<string>)
    requires CutLate(a) && CutLate(b) && a != [] && b != [] && Concat(a) == Concat(b)
    ensures |a[0]| >= |b[0]|
  {
    hide Text.Utf8Len;
    var whole := Concat(a);
    assert whole == a[0] + Concat(a[1..]) && whole == b[0] + Concat(b[1..]);
    assert |a| == 1 ==> |whole| == |a[0]|;
    if |a[0]| < |b[0]| {
      var n := |a[0]|;
      assert a[0] == whole[..n] == b[0][..n];
      if |a| > 1 {
        CutLateRest(a);
        assert whole[n] == a[1][0] by { assert Concat(a[1..]) == a[1] + Concat(a[1..][1..]); }
        assert b[0][n] == whole[n];
        Utf8LenConcat(b[0][..n], b[0][n..]);
        assert b[0] == b[0][..n] + b[0][n..];
        FirstWidth(b[0][n..]);
      }
    }
  }

  lemma FirstWidth(s: string)
    requires s != ""
    ensures Utf8Len(s) >= Utf8Width(s[0])
  {
  }

  /** There is only one way to cut a text: what the method returns is settled by
      its contract. */
  lemma {:induction false} OnlyOneCut(a: seq<string>, b: seq<string>)
    requires CutLate(a) && CutLate(b) && a != [] && b != [] && Concat(a) == Concat(b)
    ensures a == b
    decreases |a|
  {
    hide CutLate;
    FirstIsNotShorter(a, b);
    FirstIsNotShorter(b, a);
    var whole := Concat(a);
    assert whole == a[0] + Concat(a[1..]) && whole == b[0] + Concat(b[1..]);
    assert a[0] == whole[..|a[0]|] == b[0];
    assert Concat(a[1..]) == whole[|a[0]|..] == Concat(b[1..]);
    CutLateRest(a);
    CutLateRest(b);
    if |a| > 1 { NotEmpty(a[1..]); }
    if |b| > 1 { NotEmpty(b[1..]); }
    if |a| > 1 && |b| > 1 {
      OnlyOneCut(a[1..], b[1..]);
    }
    assert a == [a[0]] + a[1..] && b == [b[0]] + b[1..];
  }

  lemma NotEmpty(strings: seq<string>)
    requires strings != [] && strings[0] != ""
    ensures Concat(strings) != ""
  {
  }

  /** Every string but the last has at least 252 bytes: a character has at most four. */
  lemma {:induction false} StringsAreFew(strings: seq<string>)
    requires strings != [] && CutLate(strings)
    ensures forall i :: 0 <= i < |strings| - 1 ==> 252 <= Utf8Len(strings[i]) <= STRING_LIMIT
    ensures 252 * (|strings| - 1) <= Utf8Len(Concat(strings))
  {
    hide Text.Utf8Len, CutLate;
    CutLateRest(strings);
    assert Utf8Len(strings[0]) <= STRING_LIMIT by { FirstFits(strings); }
    Utf8LenConcat(strings[0], Concat(strings[1..]));
    if |strings| > 1 {
      StringsAreFew(strings[1..]);
      forall i | 0 <= i < |strings| - 1
        ensures 252 <= Utf8Len(strings[i]) <= STRING_LIMIT
      {
        if i > 0 { assert strings[i] == strings[1..][i - 1]; }
      }
    }
  }

  lemma FirstFits(strings: seq<string>)
    requires strings != [] && CutLate(strings)
    ensures Utf8Len(strings[0]) <= STRING_LIMIT
  {
  }

  /** An accepted text goes out as at most nine strings. */
  lemma AcceptedTextIsNineStrings(typed: string, strings: seq<string>)
    requires TextOf(typed).Ok? && strings != [] && CutLate(strings) && Concat(strings) == TextOf(typed).value
    ensures |strings| <= 9
  {
    hide Text.Utf8Len, CutLate;
    StringsAreFew(strings);
  }
}
