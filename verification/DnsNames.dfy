/** Names in a zone (src/domain/values/hostname.rs, zone_name.rs and
    record_name.rs): what somebody types becomes a zone or a record name, and a
    record name stands for exactly one full name.

    Lengths are counted in bytes, as the source counts them, and a name somebody
    types may hold any character.
 */
module DnsNames {
  import opened Text

  datatype Refusal = NotADomain | BadLabel | WildcardZone | TooLong | BadRecordName

  // ---------- hostnames and zones ----------

  predicate IsHostChar(c: char) { IsLower(c) || IsDigit(c) || c == '-' }

  predicate IsRecordChar(c: char) { IsHostChar(c) || c == '_' }

  predicate IsLabel(ok: char -> bool, part: string) {
    && part != "" && Utf8Len(part) <= 63 && AllOf(ok, part)
    && part[0] != '-' && part[|part| - 1] != '-'
  }

  /** `is_host_label`. */
  predicate IsHostLabel(part: string) { IsLabel(IsHostChar, part) }

  /** `is_record_label`. */
  predicate IsRecordLabel(part: string) { IsLabel(IsRecordChar, part) }

  predicate AreHostLabels(labels: seq<string>) {
    forall i :: 0 <= i < |labels| ==> IsHostLabel(labels[i])
  }

  function WithoutScheme(s: string): string {
    if StartsWith(s, "https://") then s[8..] else if StartsWith(s, "http://") then s[7..] else s
  }

  /** `Hostname::parse`. */
  function Hostname(typed: string): string {
    TrimEndOf(Split(WithoutScheme(Lower(Trim(typed))), '/')[0], '.')
  }

  datatype Zone = Zone(name: string)

  /** `ZoneName::parse`. */
  function ParseZone(typed: string): Result<Zone, Refusal> {
    var name := Hostname(typed);
    var labels := Split(name, '.');
    if '*' in name then Err(WildcardZone)
    else if Utf8Len(name) > 253 then Err(TooLong)
    else if |labels| < 2 || "" in labels then Err(NotADomain)
    else if !AreHostLabels(labels) then Err(BadLabel)
    else Ok(Zone(name))
  }

  /** A zone as it is stored and served: RFC 1035 section 2.3.4 bounds it. */
  predicate IsZone(zone: Zone) {
    |Split(zone.name, '.')| >= 2 && AreHostLabels(Split(zone.name, '.')) && Utf8Len(zone.name) <= 253
  }

  /** Every character of the name, from what its labels are made of. */
  lemma NameChars(ok: char -> bool, name: string)
    requires ok('.') && forall i :: 0 <= i < |Split(name, '.')| ==> AllOf(ok, Split(name, '.')[i])
    ensures AllOf(ok, name)
  {
    JoinSplit(name, '.');
    JoinAllOf(ok, Split(name, '.'), ".");
  }

  predicate IsZoneChar(c: char) { IsHostChar(c) || c == '.' }

  lemma ZoneShape(zone: Zone)
    requires IsZone(zone)
    ensures AllOf(IsZoneChar, zone.name) && zone.name != "" && zone.name[0] != '.'
    ensures zone.name[|zone.name| - 1] != '.' && zone.name != "@"
    ensures Lower(zone.name) == zone.name && Trimmed(zone.name)
    ensures Utf8Len(zone.name) == |zone.name|
  {
    hide Text.Split, Text.Join, Text.Find, Text.TrimEndOf, Text.TrimStart, Text.TrimEnd, Text.Utf8Len;
    var labels := Split(zone.name, '.');
    JoinSplit(zone.name, '.');
    assert IsHostLabel(labels[0]) && IsHostLabel(labels[|labels| - 1]);
    JoinEnds(labels, ".");
    forall i | 0 <= i < |labels|
      ensures AllOf(IsZoneChar, labels[i])
    {
      assert IsHostLabel(labels[i]);
    }
    NameChars(IsZoneChar, zone.name);
    assert IsZoneChar(zone.name[0]);
    LowerIsLower(zone.name);
    Utf8LenAscii(zone.name);
  }

  lemma NoSchemeNoPath(s: string)
    requires AllOf(IsZoneChar, s)
    ensures WithoutScheme(s) == s && Split(s, '/')[0] == s && '*' !in s
  {
    assert "https://"[5] == ':' && "http://"[4] == ':';
    assert |s| >= 8 ==> s[..8][5] == s[5];
    assert |s| >= 7 ==> s[..7][4] == s[4];
    assert forall c :: c in s ==> IsZoneChar(c);
    assert '/' !in s;
  }

  /** Exactly the names that are zones are accepted as they stand. */
  lemma ZoneParsesToItself(zone: Zone)
    ensures ParseZone(zone.name) == Ok(zone) <==> IsZone(zone)
  {
    hide Text.Split, Text.Join, Text.Find, Text.TrimEndOf, Text.TrimStart, Text.TrimEnd, Text.Utf8Len;
    if IsZone(zone) {
      ZoneShape(zone);
      TrimIsTrimmed(zone.name);
      NoSchemeNoPath(zone.name);
      assert Hostname(zone.name) == zone.name;
      assert forall part | part in Split(zone.name, '.') :: IsHostLabel(part);
    }
  }

  /** Whatever was pasted, an accepted zone is one, and so parses to itself. */
  lemma AcceptedZoneParsesToItself(typed: string)
    requires ParseZone(typed).Ok?
    ensures IsZone(ParseZone(typed).value)
    ensures ParseZone(ParseZone(typed).value.name) == ParseZone(typed)
  {
    hide Text.Split, Text.Join, Text.Find, Text.TrimEndOf, Text.TrimStart, Text.TrimEnd, Text.Utf8Len, Hostname;
    ZoneParsesToItself(ParseZone(typed).value);
  }

  // ---------- names, as they are written ----------

  /** One to 63 lower-case letters, digits and hyphens, and in a record's name
      underscores, with no hyphen at either end. */
  predicate DnsLabel(part: string, underscores: bool) {
    && 1 <= |part| <= 63 && part[0] != '-' && part[|part| - 1] != '-'
    && forall i :: 0 <= i < |part| ==>
      'a' <= part[i] <= 'z' || '0' <= part[i] <= '9' || part[i] == '-' || (underscores && part[i] == '_')
  }

  lemma LabelsAre(part: string)
    ensures IsHostLabel(part) <==> DnsLabel(part, false)
    ensures IsRecordLabel(part) <==> DnsLabel(part, true)
  {
    Utf8LenAtLeast(part);
    if AllOf(IsRecordChar, part) { Utf8LenAscii(part); }
    if AllOf(IsHostChar, part) { Utf8LenAscii(part); }
  }

  /** A zone, written out: two labels or more and 253 characters at most. */
  lemma ZonesAre(zone: Zone)
    ensures IsZone(zone) <==>
            && |Split(zone.name, '.')| >= 2 && |zone.name| <= 253
            && forall i :: 0 <= i < |Split(zone.name, '.')| ==> DnsLabel(Split(zone.name, '.')[i], false)
  {
    hide Text.Split, Text.Utf8Len, IsHostLabel, DnsLabel;
    var labels := Split(zone.name, '.');
    forall i | 0 <= i < |labels|
      ensures IsHostLabel(labels[i]) <==> DnsLabel(labels[i], false)
    {
      LabelsAre(labels[i]);
    }
    Utf8LenAtLeast(zone.name);
    if IsZone(zone) { ZoneShape(zone); }
    if AreHostLabels(labels) { ZoneIsAscii(zone); }
  }

  lemma ZoneIsAscii(zone: Zone)
    requires AreHostLabels(Split(zone.name, '.'))
    ensures Utf8Len(zone.name) == |zone.name|
  {
    hide Text.Split, Text.Utf8Len;
    var labels := Split(zone.name, '.');
    forall i | 0 <= i < |labels|
      ensures AllOf(IsZoneChar, labels[i])
    {
      assert IsHostLabel(labels[i]);
    }
    NameChars(IsZoneChar, zone.name);
    Utf8LenAscii(zone.name);
  }

  // ---------- what somebody pastes ----------

  predicate NoPath(rest: string) { rest == "" || rest[0] == '/' }

  lemma DoesNotStart(s: string, word: string, j: nat)
    requires j < |s| && j < |word| && s[j] != word[j]
    ensures !StartsWith(s, word)
  {
    if |word| <= |s| { assert s[..|word|][j] == s[j]; }
  }

  lemma NoSchemeInName(name: string, rest: string)
    requires AllOf(IsZoneChar, name) && '.' in name
    ensures WithoutScheme(name + rest) == name + rest
  {
    var s := name + rest;
    var i :| 0 <= i < |name| && name[i] == '.';
    DoesNotStart(s, "https://", if i < 8 then i else 5);
    DoesNotStart(s, "http://", if i < 7 then i else 4);
  }

  lemma SchemeComesOff(scheme: string, name: string, rest: string)
    requires scheme == "" || scheme == "http://" || scheme == "https://"
    requires AllOf(IsZoneChar, name) && '.' in name
    ensures WithoutScheme(scheme + (name + rest)) == name + rest
  {
    var s := scheme + (name + rest);
    if scheme == "" {
      assert s == name + rest;
      NoSchemeInName(name, rest);
    } else if scheme == "https://" {
      assert s[..8] == scheme && s[8..] == name + rest;
    } else {
      assert s[..7] == scheme && s[7..] == name + rest;
      DoesNotStart(s, "https://", 4);
    }
  }

  lemma HostIsFound(scheme: string, name: string, dots: string, path: string)
    requires scheme == "" || scheme == "http://" || scheme == "https://"
    requires AllOf(IsZoneChar, name) && '.' in name && name[|name| - 1] != '.'
    requires AllAre(dots, '.') && NoPath(path)
    ensures TrimEndOf(Split(WithoutScheme(scheme + (name + (dots + path))), '/')[0], '.') == name
  {
    hide Text.Split, Text.TrimEndOf, WithoutScheme;
    SchemeComesOff(scheme, name, dots + path);
    assert name + (dots + path) == (name + dots) + path;
    FirstPart(name + dots, path, '/');
    TrimEndOfAll(name, dots, '.');
  }

  /** A zone pasted in any case, from an address bar or with its last dot, between
      any whitespace and with any path after it, is that zone. */
  lemma PastedZoneIsRead(zone: Zone, lead: string, scheme: string, host: string, dots: string, path: string,
      trail: string)
    requires IsZone(zone) && Lowers(host, zone.name)
    requires Lowers(scheme, "") || Lowers(scheme, "http://") || Lowers(scheme, "https://")
    requires Blank(lead) && Blank(trail) && AllAre(dots, '.') && NoPath(path) && Trimmed(path)
    ensures ParseZone(lead + (scheme + (host + (dots + path))) + trail) == Ok(zone)
  {
    hide ParseZone, IsZone, Text.Blank, Text.Trimmed, Text.Lowers, AllAre, NoPath, Hostname;
    var typed := lead + (scheme + (host + (dots + path))) + trail;
    PastedHost(zone, lead, scheme, host, dots, path, trail);
    ZoneParsesToItself(zone);
    HostOfZone(zone);
    SameHost(typed, zone.name);
  }

  lemma SameHost(a: string, b: string)
    requires Hostname(a) == Hostname(b)
    ensures ParseZone(a) == ParseZone(b)
  {
    hide Text.Split, Text.Utf8Len, Hostname;
  }

  lemma PastedHost(zone: Zone, lead: string, scheme: string, host: string, dots: string, path: string,
      trail: string)
    requires IsZone(zone) && Lowers(host, zone.name)
    requires Lowers(scheme, "") || Lowers(scheme, "http://") || Lowers(scheme, "https://")
    requires Blank(lead) && Blank(trail) && AllAre(dots, '.') && NoPath(path) && Trimmed(path)
    ensures Hostname(lead + (scheme + (host + (dots + path))) + trail) == zone.name
  {
    hide Text.Split, Text.TrimEndOf, Text.Trim, Text.Blank, WithoutScheme;
    var core := scheme + (host + (dots + path));
    CoreIsTrimmed(zone, scheme, host, dots, path);
    TrimPadded(lead, core, trail);
    ZoneShape(zone);
    DotInZone(zone);
    hide IsZone;
    LowersIs(host, zone.name);
    LoweredCore(scheme, host, dots, path);
    SchemeIs(scheme);
    HostIsFound(Lower(scheme), zone.name, dots, Lower(path));
  }

  lemma SchemeIs(scheme: string)
    requires Lowers(scheme, "") || Lowers(scheme, "http://") || Lowers(scheme, "https://")
    ensures var s := Lower(scheme); s == "" || s == "http://" || s == "https://"
  {
    LowersIs(scheme, "");
    LowersIs(scheme, "http://");
    LowersIs(scheme, "https://");
  }

  lemma LoweredCore(scheme: string, host: string, dots: string, path: string)
    requires AllAre(dots, '.')
    ensures Lower(scheme + (host + (dots + path))) == Lower(scheme) + (Lower(host) + (dots + Lower(path)))
    ensures NoPath(path) ==> NoPath(Lower(path))
  {
    LowerConcat(scheme, host + (dots + path));
    LowerConcat(host, dots + path);
    LowerConcat(dots, path);
    DotsStay(dots);
  }

  lemma DotsStay(dots: string)
    requires AllAre(dots, '.')
    ensures Lower(dots) == dots
  {
    LowerIsLower(dots);
  }

  lemma HostOfZone(zone: Zone)
    requires IsZone(zone)
    ensures Hostname(zone.name) == zone.name
  {
    hide Text.Split, Text.Join, Text.Find, Text.TrimEndOf, Text.TrimStart, Text.TrimEnd, Text.Utf8Len;
    ZoneShape(zone);
    TrimIsTrimmed(zone.name);
    NoSchemeNoPath(zone.name);
  }

  lemma DotInZone(zone: Zone)
    requires IsZone(zone)
    ensures '.' in zone.name
  {
  }

  lemma CoreIsTrimmed(zone: Zone, scheme: string, host: string, dots: string, path: string)
    requires IsZone(zone) && Lowers(host, zone.name)
    requires Lowers(scheme, "") || Lowers(scheme, "http://") || Lowers(scheme, "https://")
    requires AllAre(dots, '.') && Trimmed(path)
    ensures Trimmed(scheme + (host + (dots + path)))
  {
    hide IsZone;
    ZoneShape(zone);
    assert !IsWhitespace(host[0]) && !IsWhitespace(host[|host| - 1]);
    assert scheme == "" || !IsWhitespace(scheme[0]);
  }

  // ---------- what a zone holds ----------

  function Normal(name: string): string { Lower(TrimEndOf(name, '.')) }

  /** The normal form, written out: trailing dots gone and letters in lower case. */
  lemma NormalIs(name: string, base: string, dots: string)
    requires Lowers(base, name) && AllAre(dots, '.') && (name == "" || name[|name| - 1] != '.')
    ensures Normal(base + dots) == name
  {
    hide Text.TrimEndOf;
    TrimEndOfAll(base, dots, '.');
    LowersIs(base, name);
    if base != "" { assert base[|base| - 1] != '.'; }
  }

  /** `ZoneName::holds`. */
  predicate Holds(zone: Zone, name: string) {
    Normal(name) == zone.name || EndsWith(Normal(name), "." + zone.name)
  }

  lemma SplitUnder(relative: string, zone: Zone)
    ensures Split(relative + "." + zone.name, '.') == Split(relative, '.') + Split(zone.name, '.')
  {
    var a, b := Split(relative, '.'), Split(zone.name, '.');
    JoinSplit(relative, '.');
    JoinSplit(zone.name, '.');
    JoinConcat(a, b, ".");
    SplitJoin(a + b, '.');
  }

  lemma SuffixOfLabels(full: string, zone: Zone)
    requires EndsWith(full, "." + zone.name)
    ensures EndsWith(Split(full, '.'), Split(zone.name, '.'))
  {
    hide Text.Split, Text.Join, Text.Find, Text.TrimEndOf, Text.TrimStart, Text.TrimEnd, Text.Utf8Len;
    var relative := full[..|full| - |zone.name| - 1];
    assert full == relative + ("." + zone.name) == relative + "." + zone.name;
    SplitUnder(relative, zone);
  }

  lemma SuffixOfName(full: string, zone: Zone)
    requires EndsWith(Split(full, '.'), Split(zone.name, '.'))
    ensures full == zone.name || EndsWith(full, "." + zone.name)
  {
    hide Text.Split, Text.Join, Text.Find, Text.TrimEndOf, Text.TrimStart, Text.TrimEnd, Text.Utf8Len;
    var all, own := Split(full, '.'), Split(zone.name, '.');
    var before := all[..|all| - |own|];
    assert all == before + own;
    JoinSplit(full, '.');
    JoinSplit(zone.name, '.');
    if before == [] {
      assert all == own;
    } else {
      JoinConcat(before, own, ".");
      assert full == Join(before, ".") + "." + zone.name == Join(before, ".") + ("." + zone.name);
    }
  }

  /** A zone holds a name exactly when the name's last labels are the zone's:
      letters alone in common are not enough. */
  lemma HoldsByLabels(zone: Zone, name: string)
    ensures Holds(zone, name) <==> EndsWith(Split(Normal(name), '.'), Split(zone.name, '.'))
  {
    hide Text.Split, Text.Join, Text.Find, Text.TrimEndOf, Text.TrimStart, Text.TrimEnd, Text.Utf8Len, Normal;
    var full := Normal(name);
    if EndsWith(full, "." + zone.name) { SuffixOfLabels(full, zone); }
    if EndsWith(Split(full, '.'), Split(zone.name, '.')) { SuffixOfName(full, zone); }
  }

  // ---------- record names ----------

  datatype RecordName = RecordName(text: string)

  const APEX := "@"

  /** The label at `i` may stand there: `*` only at the very start. */
  predicate LabelAt(labels: seq<string>, i: nat)
    requires i < |labels|
  {
    (labels[i] == "*" && i == 0) || IsRecordLabel(labels[i])
  }

  predicate AreRecordLabels(labels: seq<string>) {
    forall i :: 0 <= i < |labels| ==> LabelAt(labels, i)
  }

  function Relative(typed: string, zone: Zone): string { WithoutSuffix(typed, "." + zone.name) }

  /** `RecordName::parse`. */
  function ParseRecordName(typed: string, zone: Zone): Result<RecordName, Refusal> {
    var name := Normal(Trim(typed));
    if name == "" || name == APEX || name == zone.name then Ok(RecordName(APEX))
    else
      var relative := Relative(name, zone);
      if Utf8Len(relative) + 1 + Utf8Len(zone.name) > 253 then Err(TooLong)
      else if !AreRecordLabels(Split(relative, '.')) then Err(BadRecordName)
      else Ok(RecordName(relative))
  }

  /** `RecordName::fqdn`. */
  function Fqdn(name: RecordName, zone: Zone): string {
    if name.text == APEX then zone.name else name.text + "." + zone.name
  }

  predicate IsRecordName(name: RecordName, zone: Zone) {
    name.text == APEX
    || (AreRecordLabels(Split(name.text, '.')) && Utf8Len(name.text) + 1 + Utf8Len(zone.name) <= 253)
  }

  /** A record's name, written out: the zone's own, or labels of which the first
      may be a star, 253 characters at most with the zone's. */
  lemma RecordNamesAre(name: RecordName, zone: Zone)
    requires IsZone(zone)
    ensures var labels := Split(name.text, '.');
            IsRecordName(name, zone) <==>
              || name.text == "@"
              || (&& |name.text| + 1 + |zone.name| <= 253
                  && forall i :: 0 <= i < |labels| ==> DnsLabel(labels[i], true) || (i == 0 && labels[i] == "*"))
  {
    hide Text.Split, Text.Utf8Len, IsRecordLabel, DnsLabel;
    var labels := Split(name.text, '.');
    forall i | 0 <= i < |labels|
      ensures LabelAt(labels, i) <==> DnsLabel(labels[i], true) || (i == 0 && labels[i] == "*")
    {
      LabelsAre(labels[i]);
    }
    Utf8LenAtLeast(name.text);
    ZoneShape(zone);
    if AreRecordLabels(labels) { RecordNameIsAscii(name.text); }
  }

  lemma RecordNameIsAscii(name: string)
    requires AreRecordLabels(Split(name, '.'))
    ensures Utf8Len(name) == |name|
  {
    hide Text.Split, Text.Utf8Len, AreRecordLabels;
    NameShape(name);
    forall i | 0 <= i < |name|
      ensures IsAscii(name[i])
    {
      assert IsNameChar(name[i]);
    }
    Utf8LenAscii(name);
  }

  predicate IsNameChar(c: char) { IsRecordChar(c) || c == '.' || c == '*' }

  lemma LabelShape(labels: seq<string>, i: nat)
    requires i < |labels| && LabelAt(labels, i)
    ensures labels[i] != "" && AllOf(IsNameChar, labels[i]) && Utf8Len(labels[i]) <= 63
  {
    Utf8LenAscii("*");
  }

  lemma NameShape(name: string)
    requires AreRecordLabels(Split(name, '.'))
    ensures AllOf(IsNameChar, name) && name != "" && name[0] != '.' && name[|name| - 1] != '.'
  {
    hide Text.Split, Text.Join, Text.Utf8Len, AreRecordLabels;
    var labels := Split(name, '.');
    JoinSplit(name, '.');
    LabelsShape(labels);
    JoinEnds(labels, ".");
    NameChars(IsNameChar, name);
    EndsAreNoDots(labels);
  }

  lemma LabelsShape(labels: seq<string>)
    requires AreRecordLabels(labels)
    ensures forall i :: 0 <= i < |labels| ==> labels[i] != "" && AllOf(IsNameChar, labels[i])
  {
    hide IsNameChar, LabelAt, Text.AllOf, Text.Utf8Len;
    forall i | 0 <= i < |labels|
      ensures labels[i] != "" && AllOf(IsNameChar, labels[i])
    {
      LabelShape(labels, i);
    }
  }

  lemma EndsAreNoDots(labels: seq<string>)
    requires labels != [] && forall i :: 0 <= i < |labels| ==> labels[i] != "" && '.' !in labels[i]
    ensures labels[0][0] != '.'
    ensures var last := labels[|labels| - 1]; last[|last| - 1] != '.'
  {
  }

  /** A name made of name characters that does not end in a dot is its own
      normal form. */
  lemma NormalIsSame(name: string)
    requires AllOf(IsNameChar, name) && name != "" && name[|name| - 1] != '.'
    ensures Normal(Trim(name)) == name && Normal(name) == name && name != APEX
  {
    hide Text.Trim, Text.TrimEndOf, Text.Utf8Len, IsNameChar, Text.IsWhitespace, Text.IsUpper, Text.Lower;
    forall i | 0 <= i < |name|
      ensures !IsUpper(name[i]) && !IsWhitespace(name[i]) && name[i] != '@'
    {
      NameCharIs(name[i]);
    }
    TrimIsTrimmed(name);
    LowerIsLower(name);
  }

  lemma NameCharIs(c: char)
    requires IsNameChar(c)
    ensures !IsUpper(c) && !IsWhitespace(c) && c != '@'
  {
  }

  /** However it is typed: letters in any case, any dots after them and any
      whitespace around them are the same record name, and are held alike. */
  lemma TypingChangesNothing(name: string, typed: string, dots: string, lead: string, trail: string, zone: Zone)
    requires Lowers(typed, name) && Trimmed(name) && (name == "" || name[|name| - 1] != '.')
    requires AllAre(dots, '.') && Blank(lead) && Blank(trail)
    ensures ParseRecordName(lead + (typed + dots) + trail, zone) == ParseRecordName(name, zone)
    ensures Holds(zone, typed + dots) <==> Holds(zone, name)
    ensures name == "" || name == "@" || name == zone.name ==>
              ParseRecordName(lead + (typed + dots) + trail, zone) == Ok(RecordName("@"))
  {
    hide Text.TrimEndOf, Text.TrimStart, Text.TrimEnd, Text.Trim, Text.Split, Text.Utf8Len, Normal, Text.EndsWith;
    NormalIs(name, typed, dots);
    LowersTwice(typed, name);
    NormalIs(name, name, "");
    assert name + "" == name;
    TrimPadded(lead, typed + dots, trail);
    TrimIsTrimmed(name);
  }

  lemma LowersTwice(typed: string, name: string)
    requires Lowers(typed, name)
    ensures Lowers(name, name)
  {
  }

  lemma FqdnShape(name: RecordName, zone: Zone)
    requires IsZone(zone) && IsRecordName(name, zone) && name.text != APEX
    ensures var full := Fqdn(name, zone);
            && Normal(Trim(full)) == full && Normal(full) == full && full != "" && full != APEX
  {
    NameShape(name.text);
    ZoneShape(zone);
    var full := Fqdn(name, zone);
    assert AllOf(IsNameChar, full);
    NormalIsSame(full);
  }

  lemma RelativeOfFqdn(relative: string, zone: Zone)
    ensures Relative(relative + "." + zone.name, zone) == relative
  {
    assert relative + "." + zone.name == relative + ("." + zone.name);
  }

  lemma ApexParses(typed: string, zone: Zone)
    requires IsZone(zone) && (typed == zone.name || typed == APEX)
    ensures ParseRecordName(typed, zone) == Ok(RecordName(APEX))
  {
    hide Text.Split, Text.Join, Text.Find, Text.TrimEndOf, Text.TrimStart, Text.TrimEnd, Text.Utf8Len, Text.Trim,
      Text.AllOf, AreRecordLabels, Relative, IsZone;
    ZoneShape(zone);
    TrimIsTrimmed(typed);
    LowerIsLower(typed);
  }

  /** The full name of a record name parses back to it, so the full names of a
      zone's records and its record names are in bijection. */
  lemma FqdnParsesBack(name: RecordName, zone: Zone)
    requires IsZone(zone) && IsRecordName(name, zone)
    ensures ParseRecordName(Fqdn(name, zone), zone) == Ok(name)
  {
    hide Text.Split, Text.Join, Text.Find, Text.TrimEndOf, Text.TrimStart, Text.TrimEnd, Text.Utf8Len, Text.Trim,
        Normal;
    if name.text == APEX {
      ApexParses(zone.name, zone);
    } else {
      FqdnShape(name, zone);
      RelativeOfFqdn(name.text, zone);
    }
  }

  /** Whatever was typed, an accepted name is a record name, and so is found
      again by its full name. */
  lemma AcceptedNameParsesBack(typed: string, zone: Zone)
    requires IsZone(zone) && ParseRecordName(typed, zone).Ok?
    ensures var name := ParseRecordName(typed, zone).value;
            IsRecordName(name, zone) && ParseRecordName(Fqdn(name, zone), zone) == Ok(name)
  {
    hide Text.Split, Text.Join, Text.Find, Text.TrimEndOf, Text.TrimStart, Text.TrimEnd, Text.Utf8Len, Text.Trim,
        Normal;
    FqdnParsesBack(ParseRecordName(typed, zone).value, zone);
  }

  lemma FqdnIsInjective(a: RecordName, b: RecordName, zone: Zone)
    requires IsZone(zone) && IsRecordName(a, zone) && IsRecordName(b, zone)
    ensures Fqdn(a, zone) == Fqdn(b, zone) ==> a == b
  {
    FqdnParsesBack(a, zone);
    FqdnParsesBack(b, zone);
  }

  /** The zone holds the full name of every record in it, within the limits of
      RFC 1035 section 2.3.4. */
  lemma FqdnFitsDns(name: RecordName, zone: Zone)
    requires IsZone(zone) && IsRecordName(name, zone)
    ensures var full := Fqdn(name, zone);
            && Holds(zone, full) && Utf8Len(full) <= 253
            && forall i :: 0 <= i < |Split(full, '.')| ==> 1 <= Utf8Len(Split(full, '.')[i]) <= 63
  {
    hide Text.Split, Text.Join, Text.Find, Text.TrimEndOf, Text.TrimStart, Text.TrimEnd, Text.Utf8Len,
      Text.Trim, Normal;
    var full := Fqdn(name, zone);
    var own := Split(zone.name, '.');
    ZoneShape(zone);
    if name.text == APEX {
      ZoneIsNormal(zone);
      assert [] + own == own;
      LabelsFit([], own);
    } else {
      FqdnShape(name, zone);
      FqdnLength(name.text, zone);
      assert full == name.text + ("." + zone.name);
      SplitUnder(name.text, zone);
      LabelsFit(Split(name.text, '.'), own);
    }
  }

  lemma ZoneIsNormal(zone: Zone)
    requires IsZone(zone)
    ensures Normal(zone.name) == zone.name
  {
    hide Text.TrimEndOf;
    ZoneShape(zone);
  }

  lemma FqdnLength(relative: string, zone: Zone)
    ensures Utf8Len(relative + "." + zone.name) == Utf8Len(relative) + 1 + Utf8Len(zone.name)
  {
    hide Text.Utf8Len;
    assert relative + "." + zone.name == relative + ("." + zone.name);
    Utf8LenConcat(relative, "." + zone.name);
    Utf8LenConcat(".", zone.name);
    Utf8LenAscii(".");
  }

  lemma LabelsFit(relative: seq<string>, own: seq<string>)
    requires AreRecordLabels(relative) && AreHostLabels(own)
    ensures forall i :: 0 <= i < |relative + own| ==> 1 <= Utf8Len((relative + own)[i]) <= 63
  {
    hide Text.Utf8Len;
    var all := relative + own;
    forall i | 0 <= i < |all|
      ensures 1 <= Utf8Len(all[i]) <= 63
    {
      Utf8LenAtLeast(all[i]);
      if i < |relative| {
        LabelShape(relative, i);
      } else {
        assert all[i] == own[i - |relative|] && IsHostLabel(own[i - |relative|]);
      }
    }
  }

  /** The relative form reads back as itself exactly when it is not the zone's
      own name and does not end in it. */
  lemma RelativeReadsBack(name: RecordName, zone: Zone)
    requires IsZone(zone) && IsRecordName(name, zone)
    ensures ParseRecordName(name.text, zone) == Ok(name)
            <==> name.text != zone.name && !EndsWith(name.text, "." + zone.name)
  {
    hide Text.Split, Text.Join, Text.Find, Text.TrimEndOf, Text.TrimStart, Text.TrimEnd, Text.Utf8Len;
    ZoneShape(zone);
    if name.text == APEX {
      ApexParses(APEX, zone);
    } else {
      NameShape(name.text);
      NormalIsSame(name.text);
    }
  }

  lemma HostLabelsAreRecordLabels(labels: seq<string>)
    requires AreHostLabels(labels)
    ensures AreRecordLabels(labels)
  {
    forall i | 0 <= i < |labels|
      ensures LabelAt(labels, i)
    {
      assert IsHostLabel(labels[i]);
    }
  }

  /** Every zone but the longest has a record name that does not: the zone's own name
      under itself, typed in full, reads back as the zone. */
  lemma ZoneUnderItselfIsLost(zone: Zone)
    requires IsZone(zone) && 2 * Utf8Len(zone.name) + 1 <= 253
    ensures ParseRecordName(zone.name + "." + zone.name, zone) == Ok(RecordName(zone.name))
    ensures ParseRecordName(zone.name, zone) == Ok(RecordName(APEX)) != Ok(RecordName(zone.name))
  {
    hide Text.Split, Text.Utf8Len, ParseRecordName;
    ZoneShape(zone);
    HostLabelsAreRecordLabels(Split(zone.name, '.'));
    FqdnParsesBack(RecordName(zone.name), zone);
    ApexParses(zone.name, zone);
  }

  lemma RelativeThenZone(name: string, zone: Zone)
    requires EndsWith(name, "." + zone.name)
    ensures Relative(name, zone) + "." + zone.name == name
  {
    var relative := Relative(name, zone);
    assert name == relative + ("." + zone.name) == relative + "." + zone.name;
  }

  /** What is typed is taken as meant: a full name inside the zone stands for
      itself, and anything else for a name under the zone. */
  lemma TypedAsMeant(typed: string, zone: Zone)
    requires IsZone(zone) && ParseRecordName(typed, zone).Ok?
    ensures var full, name := Fqdn(ParseRecordName(typed, zone).value, zone), Normal(Trim(typed));
            if Holds(zone, Trim(typed)) then full == name
            else full == if name == "" || name == APEX then zone.name else name + "." + zone.name
  {
    hide Text.Split, Text.Join, Text.Find, Text.TrimEndOf, Text.TrimStart, Text.TrimEnd, Text.Utf8Len,
      Text.Trim, Text.AllOf, Normal, AreRecordLabels;
    var name := Normal(Trim(typed));
    var relative := Relative(name, zone);
    ZoneShape(zone);
    assert EndsWith(name, "." + zone.name) ==> |name| > |zone.name|;
    if name != "" && name != APEX && name != zone.name {
      NameShape(relative);
      NormalIsSame(relative);
      if EndsWith(name, "." + zone.name) { RelativeThenZone(name, zone); }
    }
  }
}
