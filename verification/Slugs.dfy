/** Slugs and the container ids built of them (src/domain/values/slug.rs and
    src/domain/entities/replica.rs). */
module Slugs {
  import opened Text

  predicate IsAlnum(c: char) { IsLower(c) || IsUpper(c) || IsDigit(c) }

  const LABEL_LIMIT := 63

  // ---------- what a slug is ----------

  predicate EndsInWord(s: string) { s != "" && IsAlnum(s[|s| - 1]) }

  /** The runs of ASCII letters and digits, in order. */
  function Runs(s: string): (runs: seq<string>)
    ensures EndsInWord(s) ==> runs != []
  {
    if s == "" then [] else
      var front, c := s[..|s| - 1], s[|s| - 1];
      var before := Runs(front);
      if !IsAlnum(c) then before
      else if EndsInWord(front) then before[..|before| - 1] + [before[|before| - 1] + [c]]
      else before + [[c]]
  }

  /** The runs in lower case, with one hyphen between them. */
  function Squeezed(s: string): string { Lower(Join(Runs(s), "-")) }

  /** `Slug::of`: cut to what a DNS label holds, without a hyphen at the end. */
  function Slug(name: string): string {
    var slug := Squeezed(name);
    TrimEndOf(if |slug| <= LABEL_LIMIT then slug else slug[..LABEL_LIMIT], '-')
  }

  lemma {:induction false} JoinSnoc(parts: seq<string>, last: string, glue: string)
    ensures Join(parts + [last], glue) == if parts == [] then last else Join(parts, glue) + glue + last
  {
    if parts == [] {
      assert [] + [last] == [last];
    } else {
      JoinConcat(parts, [last], glue);
    }
  }

  lemma {:induction false} JoinLonger(parts: seq<string>, last: string, c: char, glue: string)
    ensures Join(parts + [last + [c]], glue) == Join(parts + [last], glue) + [c]
  {
    JoinSnoc(parts, last, glue);
    JoinSnoc(parts, last + [c], glue);
    if parts != [] { ConcatAssociates(Join(parts, glue) + glue, last, [c]); }
  }

  lemma {:induction false} RunsAreNotEmpty(s: string)
    ensures forall i :: 0 <= i < |Runs(s)| ==> Runs(s)[i] != ""
  {
    if s != "" { RunsAreNotEmpty(s[..|s| - 1]); }
  }

  lemma NoRunsNoText(s: string)
    ensures Join(Runs(s), "-") == "" <==> Runs(s) == []
  {
    hide Runs;
    RunsAreNotEmpty(s);
    if Runs(s) != [] { JoinEnds(Runs(s), "-"); }
  }

  /** What one more character adds to the runs' text. */
  function Added(text: string, s: string, c: char): string {
    if !IsAlnum(c) then ""
    else if text != "" && !EndsInWord(s) then "-" + [c]
    else [c]
  }

  lemma JoinOneMore(s: string, c: char)
    ensures Join(Runs(s + [c]), "-") == Join(Runs(s), "-") + Added(Join(Runs(s), "-"), s, c)
  {
    hide Text.Join;
    var longer, runs := s + [c], Runs(s);
    assert longer[..|longer| - 1] == s;
    NoRunsNoText(s);
    JoinNothing("-");
    if IsAlnum(c) {
      if EndsInWord(s) {
        var front, last := runs[..|runs| - 1], runs[|runs| - 1];
        assert runs == front + [last];
        JoinLonger(front, last, c, "-");
      } else {
        JoinSnoc(runs, [c], "-");
        ConcatAssociates(Join(runs, "-"), "-", [c]);
      }
    }
  }

  /** What one more character adds to the slug: the only law of `Squeezed` that
      what follows needs. */
  lemma SqueezedOneMore(s: string, c: char)
    ensures Squeezed(s + [c]) == Squeezed(s) + Lower(Added(Squeezed(s), s, c))
  {
    hide Text.Join, Text.Lower;
    JoinOneMore(s, c);
    LowerConcat(Join(Runs(s), "-"), Added(Join(Runs(s), "-"), s, c));
    assert Squeezed(s) == "" <==> Join(Runs(s), "-") == "" by { LowerIsEmpty(Join(Runs(s), "-")); }
  }

  lemma LowerIsEmpty(s: string)
    ensures Lower(s) == "" <==> s == ""
  {
  }

  /** `Slug::of`. */
  method Of(name: string) returns (slug: string)
    ensures slug == Slug(name)
  {
    hide Squeezed;
    slug := "";
    var pendingHyphen := false;
    EmptySqueezed();
    for k := 0 to |name|
      invariant slug == Squeezed(name[..k])
      invariant pendingHyphen <==> k > 0 && !EndsInWord(name[..k])
    {
      var character := name[k];
      assert name[..k + 1] == name[..k] + [character];
      SqueezedOneMore(name[..k], character);
      if IsAlnum(character) {
        LowerOne(character);
        if pendingHyphen && slug != "" {
          assert slug + ("-" + [LowerChar(character)]) == slug + "-" + [LowerChar(character)];
          slug := slug + "-";
        }
        pendingHyphen := false;
        slug := slug + [LowerChar(character)];
      } else {
        LowerIsEmpty("");
        pendingHyphen := true;
      }
    }
    assert name[..|name|] == name;
    if |slug| > LABEL_LIMIT {
      slug := slug[..LABEL_LIMIT];
    }
    slug := TrimEndOf(slug, '-');
  }

  lemma EmptySqueezed()
    ensures Squeezed("") == ""
  {
  }

  lemma LowerOne(c: char)
    ensures Lower([c]) == [LowerChar(c)] && Lower("-" + [c]) == "-" + [LowerChar(c)]
  {
  }

  // ---------- what slugs look like ----------

  predicate IsSlugChar(c: char) { 'a' <= c <= 'z' || '0' <= c <= '9' || c == '-' }

  /** An ASCII letter or digit. */
  predicate LetterOrDigit(c: char) { 'a' <= c <= 'z' || 'A' <= c <= 'Z' || '0' <= c <= '9' }

  /** Letters and digits with single hyphens between them, and perhaps one after. */
  predicate Shaped(s: string) {
    && (forall i :: 0 <= i < |s| ==> IsSlugChar(s[i]))
    && (forall i, j :: 0 <= i < |s| && j == i + 1 < |s| && s[i] == '-' ==> s[j] != '-')
    && (s != "" ==> s[0] != '-')
  }

  /** A DNS label of lower-case letters and digits joined by single hyphens, or nothing. */
  predicate IsSlug(s: string) {
    |s| <= 63 && Shaped(s) && (s != "" ==> s[|s| - 1] != '-')
  }

  lemma {:induction false} SqueezedIsShaped(s: string)
    ensures Shaped(Squeezed(s))
    ensures Squeezed(s) != "" ==> Squeezed(s)[|Squeezed(s)| - 1] != '-'
  {
    hide Squeezed;
    if s == "" {
      EmptySqueezed();
    } else {
      var front, c := s[..|s| - 1], s[|s| - 1];
      assert s == front + [c];
      SqueezedIsShaped(front);
      SqueezedOneMore(front, c);
      LowerOne(c);
    }
  }

  lemma ShapedPrefix(s: string, n: nat)
    requires Shaped(s) && n <= |s|
    ensures Shaped(s[..n])
  {
  }

  lemma TrimOfShaped(s: string)
    requires Shaped(s)
    ensures TrimEndOf(s, '-') == if s != "" && s[|s| - 1] == '-' then s[..|s| - 1] else s
  {
    if s != "" && s[|s| - 1] == '-' {
      var t := s[..|s| - 1];
      assert t != "";
      assert t[|t| - 1] == s[|s| - 2];
    }
  }

  lemma SlugIsSlug(name: string)
    ensures IsSlug(Slug(name))
  {
    hide Squeezed, Text.TrimEndOf, Shaped;
    var slug := Squeezed(name);
    SqueezedIsShaped(name);
    var cut := if |slug| <= LABEL_LIMIT then slug else slug[..LABEL_LIMIT];
    ShapedPrefix(slug, |cut|);
    assert slug[..|cut|] == cut;
    TrimOfShaped(cut);
    ShapedPrefix(cut, |TrimEndOf(cut, '-')|);
  }

  lemma {:induction false} SqueezedOfShaped(s: string)
    requires Shaped(s)
    ensures Squeezed(s) == if s != "" && s[|s| - 1] == '-' then s[..|s| - 1] else s
  {
    hide Squeezed;
    if s == "" {
      EmptySqueezed();
    } else {
      var front, c := s[..|s| - 1], s[|s| - 1];
      assert s == front + [c];
      ShapedPrefix(s, |front|);
      SqueezedOfShaped(front);
      SqueezedOneMore(front, c);
      LowerOne(c);
      LowerIsEmpty("");
      if front != "" && front[|front| - 1] == '-' {
        assert s[|s| - 2] == '-' && s[0] != '-';
        assert front == front[..|front| - 1] + "-";
        assert s == front[..|front| - 1] + ("-" + [c]);
      }
    }
  }

  /** Slugs are exactly what making a slug leaves alone, so it is idempotent. */
  lemma SlugsAreTheFixedPoints(s: string)
    ensures Slug(s) == s <==> IsSlug(s)
    ensures Slug(Slug(s)) == Slug(s)
  {
    hide Slug;
    SlugIsSlug(s);
    if IsSlug(s) { SlugOfSlug(s); }
    SlugOfSlug(Slug(s));
  }

  lemma SlugOfSlug(s: string)
    requires IsSlug(s)
    ensures Slug(s) == s
  {
    hide Squeezed, Text.TrimEndOf;
    SqueezedOfShaped(s);
  }

  /** The letters and digits of a text. */
  function Letters(s: string): string {
    if s == "" then "" else Letters(s[..|s| - 1]) + if LetterOrDigit(s[|s| - 1]) then [s[|s| - 1]] else ""
  }

  lemma LettersOneMore(s: string, c: char)
    ensures Letters(s + [c]) == Letters(s) + if LetterOrDigit(c) then [c] else ""
  {
    assert (s + [c])[..|s|] == s;
  }

  lemma LettersOfAdded(slug: string, s: string, c: char)
    ensures Letters(slug + Lower(Added(slug, s, c))) == Letters(slug) + Lower(if LetterOrDigit(c) then [c] else "")
  {
    hide Letters;
    LowerOne(c);
    LowerIsEmpty("");
    if !LetterOrDigit(c) {
      assert slug + "" == slug;
      assert Letters(slug) + "" == Letters(slug);
    } else {
      var lower := LowerChar(c);
      LettersOneMore(slug, lower);
      LettersOneMore(slug, '-');
      LettersOneMore(slug + ['-'], lower);
      assert slug + ("-" + [lower]) == slug + ['-'] + [lower];
      assert Letters(slug) + "" == Letters(slug);
    }
  }

  /** No letter or digit is lost, added or moved, but for what the limit cuts off. */
  lemma {:induction false} SqueezedKeepsLetters(s: string)
    ensures Letters(Squeezed(s)) == Lower(Letters(s))
  {
    hide Squeezed, Letters, Text.Lower;
    if s == "" {
      EmptySqueezed();
      NoLetters();
    } else {
      var front, c := s[..|s| - 1], s[|s| - 1];
      assert s == front + [c];
      SqueezedKeepsLetters(front);
      SqueezedOneMore(front, c);
      LettersOneMore(front, c);
      LettersOfAdded(Squeezed(front), front, c);
      LowerConcat(Letters(front), if LetterOrDigit(c) then [c] else "");
    }
  }

  lemma {:induction false} LettersOfPrefix(s: string, n: nat)
    requires n <= |s|
    ensures Letters(s[..n]) <= Letters(s)
  {
    hide Letters;
    if n < |s| {
      var front, c := s[..|s| - 1], s[|s| - 1];
      assert s == front + [c] && s[..n] == front[..n];
      LettersOneMore(front, c);
      LettersOfPrefix(front, n);
    } else {
      assert s[..n] == s;
    }
  }

  lemma LettersOfTrimmed(s: string)
    requires Shaped(s)
    ensures Letters(TrimEndOf(s, '-')) == Letters(s) && |TrimEndOf(s, '-')| >= |s| - 1
  {
    hide Letters, Text.TrimEndOf;
    TrimOfShaped(s);
    if s != "" && s[|s| - 1] == '-' {
      LettersOneMore(s[..|s| - 1], '-');
      assert s == s[..|s| - 1] + ['-'];
      assert Letters(s[..|s| - 1]) + "" == Letters(s[..|s| - 1]);
    }
  }

  /** No letter or digit is lost, added or moved, but for those at the end that the
      limit cuts off, and then the label is full. */
  lemma SlugKeepsLetters(name: string)
    ensures Letters(Slug(name)) <= Lower(Letters(name))
    ensures Letters(Slug(name)) == Lower(Letters(name)) || |Slug(name)| >= 62
  {
    hide Squeezed, Letters, Text.TrimEndOf, Shaped, Text.Lower;
    var slug := Squeezed(name);
    SqueezedKeepsLetters(name);
    SqueezedIsShaped(name);
    var cut := if |slug| <= LABEL_LIMIT then slug else slug[..LABEL_LIMIT];
    ShapedPrefix(slug, |cut|);
    assert slug[..|cut|] == cut;
    LettersOfPrefix(slug, |cut|);
    LettersOfTrimmed(cut);
  }

  lemma NoLetters()
    ensures Letters("") == "" && Lower("") == ""
  {
  }

  // ---------- words and what is between them ----------

  predicate IsWord(s: string) { s != "" && forall i :: 0 <= i < |s| ==> LetterOrDigit(s[i]) }

  predicate IsGap(s: string) { forall i :: 0 <= i < |s| ==> !LetterOrDigit(s[i]) }

  /** Words with a gap after each, none of them empty but perhaps the last. */
  predicate AreSpaced(words: seq<string>, gaps: seq<string>) {
    && |words| == |gaps|
    && (forall i :: 0 <= i < |words| ==> IsWord(words[i]) && IsGap(gaps[i]))
    && (forall i :: 0 <= i < |gaps| - 1 ==> gaps[i] != "")
  }

  function Spaced(lead: string, words: seq<string>, gaps: seq<string>): string
    requires |words| == |gaps|
  {
    if words == [] then lead else
      var n := |words| - 1;
      Spaced(lead, words[..n], gaps[..n]) + words[n] + gaps[n]
  }

  lemma {:induction false} RunsThenGap(s: string, gap: string)
    requires IsGap(gap)
    ensures Runs(s + gap) == Runs(s)
  {
    if gap == "" {
      assert s + gap == s;
    } else {
      assert (s + gap)[..|s + gap| - 1] == s + gap[..|gap| - 1];
      RunsThenGap(s, gap[..|gap| - 1]);
    }
  }

  lemma RunsThenOne(s: string, c: char)
    ensures Runs(s + [c]) ==
            if !IsAlnum(c) then Runs(s)
            else if EndsInWord(s) then Runs(s)[..|Runs(s)| - 1] + [Runs(s)[|Runs(s)| - 1] + [c]]
            else Runs(s) + [[c]]
  {
    var t := s + [c];
    assert t[..|t| - 1] == s && t[|t| - 1] == c;
  }

  lemma LastGrows(runs: seq<string>, front: string, c: char)
    ensures var before := runs + [front];
            before[..|before| - 1] + [before[|before| - 1] + [c]] == runs + [front + [c]]
  {
  }

  lemma {:induction false} RunsThenWord(s: string, word: string)
    requires !EndsInWord(s) && IsWord(word)
    ensures Runs(s + word) == Runs(s) + [word] && EndsInWord(s + word)
  {
    hide Runs;
    var front, c := word[..|word| - 1], word[|word| - 1];
    assert word == front + [c];
    ConcatAssociates(s, front, [c]);
    RunsThenOne(s + front, c);
    if front == "" {
      assert s + front == s && word == [c];
    } else {
      RunsThenWord(s, front);
      LastGrows(Runs(s), front, c);
    }
  }

  lemma NotInGap(s: string, gap: string)
    requires gap != "" && IsGap(gap)
    ensures !EndsInWord(s + gap)
  {
    assert (s + gap)[|s + gap| - 1] == gap[|gap| - 1];
  }

  lemma {:induction false} RunsOfSpaced(lead: string, words: seq<string>, gaps: seq<string>)
    requires IsGap(lead) && AreSpaced(words, gaps)
    ensures Runs(Spaced(lead, words, gaps)) == words
    ensures words == [] || gaps[|gaps| - 1] != "" ==> !EndsInWord(Spaced(lead, words, gaps))
  {
    if words == [] {
      RunsThenGap("", lead);
      assert "" + lead == lead;
      if lead != "" { NotInGap("", lead); }
    } else {
      hide Runs, IsGap, EndsInWord;
      var n := |words| - 1;
      var before := Spaced(lead, words[..n], gaps[..n]);
      RunsOfSpaced(lead, words[..n], gaps[..n]);
      RunsThenWord(before, words[n]);
      RunsThenGap(before + words[n], gaps[n]);
      if gaps[n] != "" { NotInGap(before + words[n], gaps[n]); }
      assert words[..n] + [words[n]] == words;
    }
  }

  /** What a slug says: the words of the name in lower case, with one hyphen for
      whatever is between two of them, as far as they fit. */
  lemma SlugIsTheWords(lead: string, words: seq<string>, gaps: seq<string>)
    requires IsGap(lead) && AreSpaced(words, gaps)
    ensures var slug, whole := Slug(Spaced(lead, words, gaps)), Lower(Join(words, "-"));
            && slug <= whole && (|whole| <= 63 ==> slug == whole) && (|whole| > 63 ==> |slug| >= 62)
  {
    hide Text.TrimEndOf, Text.Lower, Text.Join, Shaped, Runs, IsWord, IsGap, Spaced;
    var name := Spaced(lead, words, gaps);
    RunsOfSpaced(lead, words, gaps);
    var slug := Squeezed(name);
    assert slug == Lower(Join(words, "-"));
    SqueezedIsShaped(name);
    var cut := if |slug| <= LABEL_LIMIT then slug else slug[..LABEL_LIMIT];
    ShapedPrefix(slug, |cut|);
    assert slug[..|cut|] == cut;
    TrimOfShaped(cut);
  }

  // ---------- container ids ----------

  /** `container_id_for`. */
  function ContainerId(project: string, service: string, slot: nat): string {
    if slot == 1 then project + "." + service else project + "." + service + "." + Decimal(slot)
  }

  predicate IsSeparator(c: char) { c == '.' || c == '_' || c == '-' }

  function RunLength(s: string): (n: nat)
    ensures n <= |s| && forall i :: 0 <= i < n ==> LetterOrDigit(s[i])
    ensures n < |s| ==> !LetterOrDigit(s[n])
  {
    if s == "" || !LetterOrDigit(s[0]) then 0 else 1 + RunLength(s[1..])
  }

  /** containerd's grammar for ids, `[A-Za-z0-9]+(?:[._-][A-Za-z0-9]+)*`. */
  predicate IsContainerdId(s: string) {
    var n := RunLength(s);
    n > 0 && (n == |s| || (IsSeparator(s[n]) && IsContainerdId(s[n + 1..])))
  }

  lemma {:induction false} RunLengthThen(word: string, more: string)
    requires forall i :: 0 <= i < |word| ==> LetterOrDigit(word[i])
    requires more == "" || !LetterOrDigit(more[0])
    ensures RunLength(word + more) == |word|
  {
    if word == "" {
      assert word + more == more;
    } else {
      assert (word + more)[1..] == word[1..] + more;
      RunLengthThen(word[1..], more);
    }
  }

  /** Two ids with a separator between them make an id. */
  lemma {:induction false} IdsJoin(a: string, separator: char, b: string)
    requires IsSeparator(separator)
    ensures IsContainerdId(a + [separator] + b) <==> IsContainerdId(a) && IsContainerdId(b)
    decreases |a|
  {
    hide RunLength;
    var s, n := a + [separator] + b, RunLength(a);
    assert s == a[..n] + (a[n..] + [separator] + b);
    RunLengthThen(a[..n], a[n..] + [separator] + b);
    if n < |a| {
      assert s[n] == a[n] && s[n + 1..] == a[n + 1..] + [separator] + b;
      IdsJoin(a[n + 1..], separator, b);
    } else {
      assert s[n] == separator && s[n + 1..] == b;
    }
  }

  lemma {:induction false} SlugIsId(s: string)
    requires Shaped(s) && s != "" && s[|s| - 1] != '-'
    ensures IsContainerdId(s)
    decreases |s|
  {
    var n := RunLength(s);
    assert IsSlugChar(s[0]) && s[0] != '-';
    if n < |s| {
      assert IsSlugChar(s[n]) && s[n] == '-';
      var rest := s[n + 1..];
      assert n + 1 < |s| && s[n + 1] != '-';
      assert Shaped(rest);
      SlugIsId(rest);
    }
  }

  lemma DecimalIsId(n: nat)
    ensures IsContainerdId(Decimal(n))
  {
    hide Text.Decimal;
    var s := Decimal(n);
    assert forall i :: 0 <= i < |s| ==> IsDigit(s[i]);
    RunLengthThen(s, "");
    assert s + "" == s;
  }

  lemma EmptyIsNoId()
    ensures !IsContainerdId("")
  {
  }

  /** An id matches containerd's grammar exactly if neither slug is empty. */
  lemma ContainerIdMatches(project: string, service: string, slot: nat)
    requires IsSlug(project) && IsSlug(service)
    ensures IsContainerdId(ContainerId(project, service, slot)) <==> project != "" && service != ""
  {
    hide IsContainerdId, Text.Decimal, Shaped;
    EmptyIsNoId();
    if project != "" { SlugIsId(project); }
    if service != "" { SlugIsId(service); }
    IdsJoin(project, '.', service);
    IdsJoin(project + "." + service, '.', Decimal(slot));
    DecimalIsId(slot);
  }

  predicate HasNoDot(s: string) { '.' !in s }

  /** The id parses back apart at its dots. */
  lemma PartsOfId(project: string, service: string, slot: nat)
    requires IsSlug(project) && IsSlug(service)
    ensures Split(ContainerId(project, service, slot), '.')
            == if slot == 1 then [project, service] else [project, service, Decimal(slot)]
  {
    hide Text.Split, Text.Join, Text.Decimal;
    assert HasNoDot(project) && HasNoDot(service);
    assert AllDigits(Decimal(slot));
    JoinThree(project, service, Decimal(slot), ".");
    SplitJoin(if slot == 1 then [project, service] else [project, service, Decimal(slot)], '.');
  }

  lemma JoinThree(a: string, b: string, c: string, glue: string)
    ensures Join([a, b], glue) == a + glue + b
    ensures Join([a, b, c], glue) == a + glue + b + glue + c
  {
    hide Text.Join;
    JoinOne(b, glue);
    JoinOne(c, glue);
    assert [a] + [b] == [a, b] && [b] + [c] == [b, c] && [a] + [b, c] == [a, b, c];
    JoinMore(a, [b], glue);
    JoinMore(b, [c], glue);
    JoinMore(a, [b, c], glue);
    assert a + glue + (b + glue + c) == a + glue + b + glue + c;
  }

  /** No two slots of any services share an id. */
  lemma ContainerIdsAreUnambiguous(
    project: string, service: string, slot: nat, project': string, service': string, slot': nat)
    requires IsSlug(project) && IsSlug(service) && IsSlug(project') && IsSlug(service')
    requires ContainerId(project, service, slot) == ContainerId(project', service', slot')
    ensures project == project' && service == service' && slot == slot'
  {
    hide Text.Split, Text.Decimal, IsSlug, ContainerId;
    PartsOfId(project, service, slot);
    PartsOfId(project', service', slot');
    var parts := Split(ContainerId(project, service, slot), '.');
    assert parts[0] == project == project' && parts[1] == service == service';
    if |parts| == 3 {
      assert parts[2] == Decimal(slot) == Decimal(slot');
      DecimalInjective(slot, slot');
    }
  }
}
