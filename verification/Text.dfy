/** The string operations of Rust's standard library that the modelled code is
    written with: trimming, splitting, lines, and decimal numbers.

    A `string` is a sequence of Unicode scalar values, as a Rust `&str` is once
    its bytes are decoded; `Utf8Len` is the byte length that `str::len` reports.
 */
module Text {

  datatype Option<+T> = None | Some(value: T)

  datatype Result<+T, +E> = Ok(value: T) | Err(error: E)

  // ---------- characters ----------

  predicate IsDigit(c: char) { '0' <= c <= '9' }

  predicate IsLower(c: char) { 'a' <= c <= 'z' }

  predicate IsUpper(c: char) { 'A' <= c <= 'Z' }

  predicate IsAscii(c: char) { c as int < 128 }

  /** `char::is_whitespace`: the Unicode property White_Space. */
  predicate IsWhitespace(c: char) {
    var n := c as int;
    9 <= n <= 13 || n == 0x20 || n == 0x85 || n == 0xA0 || n == 0x1680 || 0x2000 <= n <= 0x200A
    || n == 0x2028 || n == 0x2029 || n == 0x202F || n == 0x205F || n == 0x3000
  }

  function LowerChar(c: char): char {
    if IsUpper(c) then (c as int + 32) as char else c
  }

  /** `str::to_ascii_lowercase`. */
  function Lower(s: string): (r: string)
    ensures |r| == |s|
    ensures forall i :: 0 <= i < |s| ==> r[i] == LowerChar(s[i])
  {
    seq(|s|, i requires 0 <= i < |s| => LowerChar(s[i]))
  }

  lemma LowerIsLower(s: string)
    ensures Lower(s) == s <==> forall i :: 0 <= i < |s| ==> !IsUpper(s[i])
    ensures Lower(Lower(s)) == Lower(s)
  {
    if exists i :: 0 <= i < |s| && IsUpper(s[i]) {
      var i :| 0 <= i < |s| && IsUpper(s[i]);
      assert Lower(s)[i] != s[i];
    }
  }

  /** The same text but for the case of its ASCII letters: `b` is `a` in lower case. */
  predicate Lowers(a: string, b: string) {
    |a| == |b| && forall i :: 0 <= i < |a| ==>
      b[i] == if 'A' <= a[i] <= 'Z' then (a[i] as int + 32) as char else a[i]
  }

  lemma LowersIs(a: string, b: string)
    ensures Lowers(a, b) <==> b == Lower(a)
  {
  }

  lemma LowerConcat(a: string, b: string)
    ensures Lower(a + b) == Lower(a) + Lower(b)
  {
  }

  /** The number of bytes a character takes in UTF-8. */
  function Utf8Width(c: char): (n: nat)
    ensures 1 <= n <= 4
  {
    var n := c as int;
    if n < 0x80 then 1 else if n < 0x800 then 2 else if n < 0x10000 then 3 else 4
  }

  function Utf8Len(s: string): nat {
    if s == [] then 0 else Utf8Width(s[0]) + Utf8Len(s[1..])
  }

  lemma {:induction false} Utf8LenConcat(a: string, b: string)
    ensures Utf8Len(a + b) == Utf8Len(a) + Utf8Len(b)
  {
    if a == [] {
      assert a + b == b;
    } else {
      assert (a + b)[1..] == a[1..] + b;
      Utf8LenConcat(a[1..], b);
    }
  }

  lemma {:induction false} Utf8LenAscii(s: string)
    requires forall i :: 0 <= i < |s| ==> IsAscii(s[i])
    ensures Utf8Len(s) == |s|
  {
    if s != [] { Utf8LenAscii(s[1..]); }
  }

  lemma {:induction false} Utf8LenAtLeast(s: string)
    ensures |s| <= Utf8Len(s)
  {
    if s != [] { Utf8LenAtLeast(s[1..]); }
  }

  lemma FirstThenRest<T>(a: seq<T>, b: seq<T>)
    requires a != []
    ensures a + b == [a[0]] + (a[1..] + b)
  {
  }

  lemma ConcatAssociates<T>(a: seq<T>, b: seq<T>, c: seq<T>)
    ensures a + b + c == a + (b + c)
  {
  }

  lemma ConcatAt<T>(a: seq<T>, b: seq<T>, n: nat)
    requires n <= |a|
    ensures (a + b)[..n] == a[..n] && (a + b)[n..] == a[n..] + b
  {
  }

  lemma SliceOfPrefix<T>(s: seq<T>, i: nat, j: nat)
    requires i <= j <= |s|
    ensures s[..j][i..] == s[i..j]
  {
  }

  // ---------- prefixes and suffixes ----------

  predicate StartsWith(s: string, prefix: string) {
    |prefix| <= |s| && s[..|prefix|] == prefix
  }

  predicate EndsWith<T(==)>(s: seq<T>, suffix: seq<T>) {
    |suffix| <= |s| && s[|s| - |suffix|..] == suffix
  }

  /** Whether `word` stands in `s` at position `i`. */
  predicate At(s: string, i: nat, word: string) {
    i + |word| <= |s| && s[i..i + |word|] == word
  }

  /** `str::strip_suffix(..).unwrap_or(s)`. */
  function WithoutSuffix(s: string, suffix: string): string {
    if EndsWith(s, suffix) then s[..|s| - |suffix|] else s
  }

  // ---------- trimming ----------

  function TrimStart(s: string): (r: string)
    ensures |r| <= |s| && r == s[|s| - |r|..]
    ensures r != [] ==> !IsWhitespace(r[0])
  {
    if s != [] && IsWhitespace(s[0]) then TrimStart(s[1..]) else s
  }

  function TrimEnd(s: string): (r: string)
    ensures |r| <= |s| && r == s[..|r|]
    ensures r != [] ==> !IsWhitespace(r[|r| - 1])
  {
    if s != [] && IsWhitespace(s[|s| - 1]) then TrimEnd(s[..|s| - 1]) else s
  }

  function Trim(s: string): string { TrimStart(TrimEnd(s)) }

  /** No whitespace at either end. */
  predicate Trimmed(s: string) {
    s == [] || (!IsWhitespace(s[0]) && !IsWhitespace(s[|s| - 1]))
  }

  predicate Blank(s: string) {
    forall i :: 0 <= i < |s| ==> IsWhitespace(s[i])
  }

  lemma TrimIsTrimmed(s: string)
    ensures Trimmed(Trim(s))
    ensures |Trim(s)| <= |s|
    ensures |Trim(s)| == |s| <==> Trimmed(s)
    ensures Trim(s) == s <==> Trimmed(s)
  {
    var e := TrimEnd(s);
    var t := TrimStart(e);
    if t != [] {
      assert t[|t| - 1] == e[|e| - 1];
    }
  }

  lemma {:induction false} TrimStartRest(s: string)
    ensures Blank(s[..|s| - |TrimStart(s)|])
  {
    if s != [] && IsWhitespace(s[0]) {
      TrimStartRest(s[1..]);
      var lead := s[1..][..|s[1..]| - |TrimStart(s[1..])|];
      assert s[..|s| - |TrimStart(s)|] == [s[0]] + lead;
    }
  }

  /** A text is what trimming leaves, with whitespace around it. */
  lemma TrimTakes(s: string) returns (lead: string, trail: string)
    ensures Blank(lead) && Blank(trail) && s == lead + Trim(s) + trail
  {
    var e := TrimEnd(s);
    TrimEndRest(s);
    TrimStartRest(e);
    lead, trail := e[..|e| - |Trim(s)|], s[|e|..];
  }

  /** `word` is the first thing in `s`, after any whitespace. */
  ghost predicate Begins(s: string, word: string) {
    exists lead, rest :: Blank(lead) && s == lead + word + rest
  }

  /** `word` is the last thing in `s`, before any whitespace. */
  ghost predicate Ends(s: string, word: string) {
    exists rest, trail :: Blank(trail) && s == rest + word + trail
  }

  /** `word` is all there is in `s` between any whitespace. */
  ghost predicate IsAlone(s: string, word: string) {
    exists lead, trail :: Blank(lead) && Blank(trail) && s == lead + word + trail
  }

  lemma TrimOfBeginning(lead: string, word: string, rest: string)
    requires word != "" && Trimmed(word) && Blank(lead)
    ensures StartsWith(Trim(lead + word + rest), word)
  {
    var t := word + rest;
    var e := TrimEnd(t);
    hide TrimEnd, TrimStart, Trim, IsWhitespace, Blank;
    TrimEndKeeps(t, |word| - 1);
    TrimEndRest(t);
    assert e[..|word|] == t[..|word|] == word;
    BeginsTrimmed(lead, word, rest, e);
  }

  lemma BeginsTrimmed(lead: string, word: string, rest: string, e: string)
    requires Blank(lead) && word != "" && Trimmed(word)
    requires e <= word + rest && Blank((word + rest)[|e|..]) && e == TrimEnd(word + rest)
    requires |e| >= |word| && e[..|word|] == word
    ensures StartsWith(Trim(lead + word + rest), word)
  {
    hide TrimEnd, TrimStart, Trim, IsWhitespace, Blank;
    var trail := (word + rest)[|e|..];
    assert word + rest == e + trail;
    ConcatAssociates(lead, word, rest);
    ConcatAssociates(lead, e, trail);
    assert e[0] == word[0];
    TrimPadded(lead, e, trail);
  }

  lemma TrimOfEnd(rest: string, word: string, trail: string)
    requires word != "" && Trimmed(word) && Blank(trail)
    ensures EndsWith(Trim(rest + word + trail), word)
  {
    var t := rest + word;
    var r := TrimStart(t);
    hide TrimEnd, TrimStart, Trim, IsWhitespace, Blank;
    assert t[|t| - 1] == word[|word| - 1] && t[|rest|] == word[0];
    TrimStartReaches(t, |rest|);
    TrimStartRest(t);
    EndsTrimmed(t[..|t| - |r|], r, trail);
    assert t == t[..|t| - |r|] + r;
    assert r[|r| - |word|..] == t[|t| - |word|..] == word;
  }

  lemma EndsTrimmed(lead: string, r: string, trail: string)
    requires Blank(lead) && Blank(trail) && r != "" && !IsWhitespace(r[0]) && !IsWhitespace(r[|r| - 1])
    ensures Trim(lead + r + trail) == r
  {
    TrimPadded(lead, r, trail);
  }

  lemma {:induction false} TrimStartReaches(s: string, i: nat)
    requires i < |s| && !IsWhitespace(s[i])
    ensures |TrimStart(s)| >= |s| - i
  {
    if IsWhitespace(s[0]) { TrimStartReaches(s[1..], i - 1); }
  }

  lemma TrimBeginsWith(s: string, word: string)
    requires word != "" && Trimmed(word)
    ensures StartsWith(Trim(s), word) <==> Begins(s, word)
  {
    var lead, trail := TrimTakes(s);
    hide Trim, Blank, Trimmed, IsWhitespace;
    var t := Trim(s);
    if StartsWith(t, word) {
      assert s == lead + word + (t[|word|..] + trail);
    }
    if lead', rest :| Blank(lead') && s == lead' + word + rest {
      TrimOfBeginning(lead', word, rest);
    }
  }

  lemma TrimStartBeginsWith(s: string, word: string)
    requires word != "" && Trimmed(word)
    ensures StartsWith(TrimStart(s), word) <==> Begins(s, word)
  {
    hide TrimStart, Blank, IsWhitespace;
    var t := TrimStart(s);
    if StartsWith(t, word) {
      var lead := s[..|s| - |t|];
      TrimStartRest(s);
      assert s == lead + word + t[|word|..];
    }
    if lead', rest :| Blank(lead') && s == lead' + word + rest {
      TrimStartOfBeginning(lead', word, rest);
    }
  }

  lemma TrimStartOfBeginning(lead: string, word: string, rest: string)
    requires word != "" && Trimmed(word) && Blank(lead)
    ensures StartsWith(TrimStart(lead + word + rest), word)
  {
    hide TrimStart, Blank, IsWhitespace;
    ConcatAssociates(lead, word, rest);
    TrimStartBlank(lead, word + rest);
    assert (word + rest)[0] == word[0];
    TrimStartSame(word + rest);
    assert (word + rest)[..|word|] == word;
  }

  lemma TrimEndsWith(s: string, word: string)
    requires word != "" && Trimmed(word)
    ensures EndsWith(Trim(s), word) <==> Ends(s, word)
  {
    var lead, trail := TrimTakes(s);
    hide Trim, Blank, Trimmed, IsWhitespace;
    var t := Trim(s);
    if EndsWith(t, word) {
      assert s == (lead + t[..|t| - |word|]) + word + trail;
    }
    if rest, trail' :| Blank(trail') && s == rest + word + trail' {
      TrimOfEnd(rest, word, trail');
    }
  }

  lemma TrimIsWord(s: string, word: string)
    requires Trimmed(word)
    ensures Trim(s) == word <==> IsAlone(s, word)
  {
    var lead, trail := TrimTakes(s);
    hide Trim, Blank, Trimmed, IsWhitespace;
    if lead', trail' :| Blank(lead') && Blank(trail') && s == lead' + word + trail' {
      TrimPadded(lead', word, trail');
    }
  }

  /** Trimming leaves nothing exactly of whitespace. */
  lemma TrimIsEmpty(s: string)
    ensures Trim(s) == "" <==> Blank(s)
  {
    if Blank(s) {
      assert [] + s == s;
      TrimEndBlank([], s);
    } else {
      var i :| 0 <= i < |s| && !IsWhitespace(s[i]);
      KeepsNonblank(s, i);
    }
  }

  lemma KeepsNonblank(s: string, i: nat)
    requires i < |s| && !IsWhitespace(s[i])
    ensures Trim(s) != ""
  {
    TrimEndKeeps(s, i);
    TrimStartKeeps(TrimEnd(s), i);
  }

  lemma {:induction false} TrimEndKeeps(s: string, i: nat)
    requires i < |s| && !IsWhitespace(s[i])
    ensures i < |TrimEnd(s)| && TrimEnd(s)[i] == s[i]
  {
    if IsWhitespace(s[|s| - 1]) { TrimEndKeeps(s[..|s| - 1], i); }
  }

  lemma {:induction false} TrimStartKeeps(s: string, i: nat)
    requires i < |s| && !IsWhitespace(s[i])
    ensures TrimStart(s) != ""
  {
    if IsWhitespace(s[0]) { TrimStartKeeps(s[1..], i - 1); }
  }

  lemma {:induction false} TrimStartBlank(pad: string, s: string)
    requires Blank(pad)
    ensures TrimStart(pad + s) == TrimStart(s)
  {
    if pad == [] {
      assert pad + s == s;
    } else {
      assert (pad + s)[1..] == pad[1..] + s;
      TrimStartBlank(pad[1..], s);
    }
  }

  lemma {:induction false} TrimEndBlank(s: string, pad: string)
    requires Blank(pad)
    ensures TrimEnd(s + pad) == TrimEnd(s)
  {
    if pad == [] {
      assert s + pad == s;
    } else {
      assert (s + pad)[..|s + pad| - 1] == s + pad[..|pad| - 1];
      TrimEndBlank(s, pad[..|pad| - 1]);
    }
  }

  /** Whitespace put around a trimmed text is what `trim` takes off. */
  lemma TrimPadded(lead: string, s: string, trail: string)
    requires Blank(lead) && Blank(trail) && Trimmed(s)
    ensures Trim(lead + s + trail) == s
  {
    TrimEndBlank(lead + s, trail);
    if s == [] {
      assert lead + s == [] + lead;
      TrimEndBlank([], lead);
    } else {
      assert TrimEnd(lead + s) == lead + s;
      TrimStartBlank(lead, s);
    }
  }

  /** `trim_end_matches(c)` for one character. */
  function TrimEndOf(s: string, c: char): (r: string)
    ensures |r| <= |s| && r == s[..|r|]
    ensures r != [] ==> r[|r| - 1] != c
    ensures (s == [] || s[|s| - 1] != c) ==> r == s
  {
    if s != [] && s[|s| - 1] == c then TrimEndOf(s[..|s| - 1], c) else s
  }

  function TrimStartOf(s: string, c: char): (r: string)
    ensures |r| <= |s| && r == s[|s| - |r|..]
    ensures r != [] ==> r[0] != c
    ensures (s == [] || s[0] != c) ==> r == s
  {
    if s != [] && s[0] == c then TrimStartOf(s[1..], c) else s
  }

  /** `trim_matches(c)` for one character. */
  function TrimOf(s: string, c: char): (r: string)
    ensures |r| <= |s|
    ensures r != [] ==> r[0] != c && r[|r| - 1] != c
    ensures (s == [] || (s[0] != c && s[|s| - 1] != c)) ==> r == s
  {
    TrimStartOf(TrimEndOf(s, c), c)
  }

  predicate AllAre(s: string, c: char) { forall i :: 0 <= i < |s| ==> s[i] == c }

  lemma {:induction false} TrimEndOfAll(s: string, end: string, c: char)
    requires AllAre(end, c)
    ensures TrimEndOf(s + end, c) == TrimEndOf(s, c)
  {
    if end == "" {
      assert s + end == s;
    } else {
      assert (s + end)[..|s + end| - 1] == s + end[..|end| - 1];
      TrimEndOfAll(s, end[..|end| - 1], c);
    }
  }

  // ---------- searching and splitting ----------

  /** The first position of `c`, or the length. */
  function Find(s: string, c: char): (n: nat)
    ensures n <= |s|
    ensures forall i :: 0 <= i < n ==> s[i] != c
    ensures n < |s| ==> s[n] == c
    ensures n == |s| <==> c !in s
  {
    if s == [] then 0 else if s[0] == c then 0 else 1 + Find(s[1..], c)
  }

  lemma FindIs(a: string, c: char, b: string)
    requires c !in a
    ensures Find(a + [c] + b, c) == |a|
  {
    var s := a + [c] + b;
    assert s[|a|] == c;
    assert forall i :: 0 <= i < |a| ==> s[i] == a[i];
  }

  /** `str::split(c)`: always at least one part. */
  function Split(s: string, c: char): (parts: seq<string>)
    ensures |parts| >= 1
    ensures forall i :: 0 <= i < |parts| ==> c !in parts[i]
  {
    var n := Find(s, c);
    if n == |s| then [s] else [s[..n]] + Split(s[n + 1..], c)
  }

  function Join(parts: seq<string>, glue: string): string {
    if parts == [] then "" else if |parts| == 1 then parts[0] else parts[0] + glue + Join(parts[1..], glue)
  }

  lemma SplitWhole(s: string, c: char)
    requires Find(s, c) == |s|
    ensures Split(s, c) == [s]
  {
  }

  lemma SplitAt(s: string, c: char, n: nat)
    requires n == Find(s, c) < |s|
    ensures Split(s, c) == [s[..n]] + Split(s[n + 1..], c)
  {
    hide Find;
  }

  /** The first part is what is before the first separator. */
  lemma FirstPart(a: string, rest: string, c: char)
    requires c !in a && (rest == "" || rest[0] == c)
    ensures Split(a + rest, c)[0] == a
  {
    if rest == "" {
      assert a + rest == a;
    } else {
      assert a + rest == a + [c] + rest[1..];
      FindIs(a, c, rest[1..]);
    }
  }

  lemma SplitIsSome(s: string, c: char)
    ensures Split(s, c) != []
  {
  }

  lemma {:induction false} JoinSplit(s: string, c: char)
    ensures Join(Split(s, c), [c]) == s
  {
    hide Split, Join;
    var n := Find(s, c);
    if n == |s| {
      SplitWhole(s, c);
      JoinOne(s, [c]);
    } else {
      SplitAt(s, c, n);
      JoinSplit(s[n + 1..], c);
      SplitIsSome(s[n + 1..], c);
      JoinMore(s[..n], Split(s[n + 1..], c), [c]);
      CutAt(s, n);
    }
  }

  lemma {:induction false} SplitJoin(parts: seq<string>, c: char)
    requires |parts| >= 1
    requires forall i :: 0 <= i < |parts| ==> c !in parts[i]
    ensures Split(Join(parts, [c]), c) == parts
  {
    var s := Join(parts, [c]);
    if |parts| > 1 {
      var rest := Join(parts[1..], [c]);
      assert s == parts[0] + [c] + rest;
      FindIs(parts[0], c, rest);
      assert s[..|parts[0]|] == parts[0];
      assert s[|parts[0]| + 1..] == rest;
      SplitJoin(parts[1..], c);
    }
  }

  lemma {:induction false} JoinConcat(a: seq<string>, b: seq<string>, glue: string)
    requires a != [] && b != []
    ensures Join(a + b, glue) == Join(a, glue) + glue + Join(b, glue)
  {
    assert (a + b)[1..] == a[1..] + b;
    if |a| > 1 {
      JoinConcat(a[1..], b, glue);
      assert Join(a + b, glue) == a[0] + glue + (Join(a[1..], glue) + glue + Join(b, glue));
      assert Join(a, glue) == a[0] + glue + Join(a[1..], glue);
      assert a[0] + glue + (Join(a[1..], glue) + glue + Join(b, glue))
          == a[0] + glue + Join(a[1..], glue) + glue + Join(b, glue);
    } else {
      assert a[1..] + b == b;
    }
  }

  /** A property of every character. */
  predicate AllOf(ok: char -> bool, s: string) {
    forall i :: 0 <= i < |s| ==> ok(s[i])
  }

  lemma {:induction false} JoinAllOf(ok: char -> bool, parts: seq<string>, glue: string)
    requires forall i :: 0 <= i < |parts| ==> AllOf(ok, parts[i])
    requires AllOf(ok, glue)
    ensures AllOf(ok, Join(parts, glue))
  {
    if |parts| > 1 {
      JoinAllOf(ok, parts[1..], glue);
    }
  }

  /** Joined parts begin as the first does and end as the last does. */
  lemma {:induction false} JoinEnds(parts: seq<string>, glue: string)
    requires parts != [] && parts[0] != "" && parts[|parts| - 1] != ""
    ensures var s := Join(parts, glue);
            && s != "" && s[0] == parts[0][0]
            && s[|s| - 1] == parts[|parts| - 1][|parts[|parts| - 1]| - 1]
  {
    if |parts| > 1 { JoinEndsLast(parts, glue); }
  }

  lemma {:induction false} JoinEndsLast(parts: seq<string>, glue: string)
    requires parts != [] && parts[|parts| - 1] != ""
    ensures var s := Join(parts, glue);
            s != "" && s[|s| - 1] == parts[|parts| - 1][|parts[|parts| - 1]| - 1]
  {
    if |parts| > 1 {
      JoinEndsLast(parts[1..], glue);
      assert parts[1..][|parts| - 2] == parts[|parts| - 1];
    }
  }

  // ---------- words ----------

  /** The first position of a whitespace character, or the length. */
  function WordLength(s: string): (n: nat)
    ensures n <= |s|
    ensures forall i :: 0 <= i < n ==> !IsWhitespace(s[i])
    ensures n < |s| ==> IsWhitespace(s[n])
  {
    if s == [] || IsWhitespace(s[0]) then 0 else 1 + WordLength(s[1..])
  }

  predicate IsWord(s: string) {
    s != "" && forall i :: 0 <= i < |s| ==> !IsWhitespace(s[i])
  }

  /** `str::split_whitespace`. */
  function Words(s: string): seq<string>
    decreases |s|
  {
    var t := TrimStart(s);
    if t == "" then [] else
      var n := WordLength(t);
      [t[..n]] + Words(t[n..])
  }

  predicate AreWords(words: seq<string>) {
    forall i :: 0 <= i < |words| ==> IsWord(words[i])
  }

  lemma {:induction false} WordsAreWords(s: string)
    ensures AreWords(Words(s))
    decreases |s|
  {
    hide Words, TrimStart, WordLength;
    var t := TrimStart(s);
    if t == "" {
      WordsOfBlank(s);
    } else {
      WordLengthPositive(t);
      WordsStep(s, t);
      WordsAreWords(t[WordLength(t)..]);
    }
  }

  lemma WordsOfNothing()
    ensures Words("") == []
  {
  }

  lemma WordsOfWord(word: string)
    requires IsWord(word)
    ensures Words(word) == [word]
  {
    assert TrimStart(word) == word && WordLength(word) == |word|;
    assert word[..|word|] == word && word[|word|..] == "";
    assert Words("") == [];
  }

  lemma WordsOfFirst(word: string, rest: string)
    requires IsWord(word)
    ensures Words(word + " " + rest) == [word] + Words(rest)
  {
    var s := word + " " + rest;
    assert s[0] == word[0] && TrimStart(s) == s;
    WordLengthIs(word, " " + rest);
    assert s == word + (" " + rest);
    assert s[..|word|] == word && s[|word|..] == " " + rest;
    assert (" " + rest)[1..] == rest;
    assert TrimStart(" " + rest) == TrimStart(rest);
  }

  lemma {:induction false} WordLengthIs(word: string, more: string)
    requires forall i :: 0 <= i < |word| ==> !IsWhitespace(word[i])
    requires more != "" && IsWhitespace(more[0])
    ensures WordLength(word + more) == |word|
  {
    if word == "" {
      assert word + more == more;
    } else {
      assert (word + more)[1..] == word[1..] + more;
      WordLengthIs(word[1..], more);
    }
  }

  /** The only whitespace is single spaces. */
  predicate SingleSpaced(s: string) {
    forall i :: 0 <= i < |s| && IsWhitespace(s[i]) ==> s[i] == ' ' && (i + 1 < |s| ==> !IsWhitespace(s[i + 1]))
  }

  lemma {:induction false} JoinedWords(words: seq<string>)
    requires AreWords(words)
    ensures SingleSpaced(Join(words, " ")) && Trimmed(Join(words, " "))
    ensures words != [] ==> Join(words, " ") != ""
  {
    if |words| > 1 {
      var rest := Join(words[1..], " ");
      JoinedWords(words[1..]);
      assert !IsWhitespace(rest[0]);
    }
  }

  lemma SingleSpacedPart(s: string, i: nat, j: nat)
    requires i <= j <= |s| && SingleSpaced(s)
    ensures SingleSpaced(s[i..j]) && (j == |s| ==> SingleSpaced(s[i..]))
  {
    var t := s[i..j];
    forall k | 0 <= k < |t| && IsWhitespace(t[k])
      ensures t[k] == ' ' && (k + 1 < |t| ==> !IsWhitespace(t[k + 1]))
    {
      assert t[k] == s[i + k];
    }
  }

  lemma TrimStartSame(s: string)
    requires s == "" || !IsWhitespace(s[0])
    ensures TrimStart(s) == s
  {
  }

  lemma TrimStartOne(s: string)
    requires |s| > 1 && IsWhitespace(s[0]) && !IsWhitespace(s[1])
    ensures TrimStart(s) == s[1..]
  {
    TrimStartSame(s[1..]);
  }

  lemma CutAt<T>(s: seq<T>, n: nat)
    requires n < |s|
    ensures s == s[..n] + [s[n]] + s[n + 1..]
  {
  }

  lemma SpaceAfterWord(s: string)
    requires s != "" && SingleSpaced(s) && Trimmed(s) && WordLength(s) < |s|
    ensures var n := WordLength(s); s[n] == ' ' && n + 1 < |s| && !IsWhitespace(s[n + 1])
  {
    hide WordLength;
  }

  lemma LastOfTrimmed(s: string, n: nat)
    requires n < |s| && Trimmed(s) && !IsWhitespace(s[n])
    ensures Trimmed(s[n..])
  {
  }

  /** A single-spaced text after its first word. */
  lemma AfterFirstWord(s: string, n: nat)
    requires s != "" && SingleSpaced(s) && Trimmed(s) && n == WordLength(s) < |s|
    ensures n + 1 < |s| && SingleSpaced(s[n + 1..]) && Trimmed(s[n + 1..])
    ensures s == s[..n] + " " + s[n + 1..] && TrimStart(s) == s && TrimStart(s[n..]) == s[n + 1..]
  {
    hide TrimStart, WordLength, SingleSpaced, Trimmed;
    SpaceAfterWord(s);
    CutAt(s, n);
    assert !IsWhitespace(s[0]) by { NotBlankFirst(s); }
    TrimStartSame(s);
    TrimStartOne(s[n..]);
    SingleSpacedPart(s, n + 1, |s|);
    LastOfTrimmed(s, n + 1);
  }

  lemma NotBlankFirst(s: string)
    requires s != "" && Trimmed(s)
    ensures !IsWhitespace(s[0])
  {
  }

  lemma JoinMore(first: string, rest: seq<string>, glue: string)
    requires rest != []
    ensures Join([first] + rest, glue) == first + glue + Join(rest, glue)
  {
    assert ([first] + rest)[1..] == rest;
  }

  /** Splitting a single-spaced text into words and joining them changes nothing. */
  lemma {:induction false} JoinWords(s: string)
    requires SingleSpaced(s) && Trimmed(s)
    ensures Join(Words(s), " ") == s
    decreases |s|
  {
    hide Words, TrimStart, WordLength, SingleSpaced, Join;
    if s == "" {
      WordsOfNothing();
      JoinNothing(" ");
    } else if WordLength(s) == |s| {
      assert IsWord(s);
      WordsOfWord(s);
      JoinOne(s, " ");
    } else {
      var rest := s[WordLength(s) + 1..];
      AfterFirstWord(s, WordLength(s));
      WordsStep(s, s);
      WordsOfTrimStart(s[WordLength(s)..]);
      JoinWords(rest);
      JoinNothing(" ");
      JoinMore(s[..WordLength(s)], Words(rest), " ");
    }
  }

  lemma JoinNothing(glue: string)
    ensures Join([], glue) == ""
  {
  }

  lemma JoinOne(part: string, glue: string)
    ensures Join([part], glue) == part
  {
  }

  lemma {:induction false} WordLengthThen(t: string, pad: string)
    requires t != "" && Blank(pad)
    ensures WordLength(t + pad) == WordLength(t)
    decreases |t|
  {
    var s := t + pad;
    if !IsWhitespace(t[0]) {
      assert s[1..] == t[1..] + pad;
      if |t| > 1 { WordLengthThen(t[1..], pad); } else { assert s[1..] == pad; }
    }
  }

  lemma {:induction false} TrimStartThen(s: string, pad: string)
    requires Blank(pad)
    ensures TrimStart(s + pad) == if TrimStart(s) == "" then "" else TrimStart(s) + pad
  {
    if s == "" {
      assert s + pad == pad + "";
      TrimStartBlank(pad, "");
    } else if IsWhitespace(s[0]) {
      assert (s + pad)[1..] == s[1..] + pad;
      TrimStartThen(s[1..], pad);
    }
  }

  lemma WordsStep(s: string, t: string)
    requires t == TrimStart(s) && t != ""
    ensures Words(s) == [t[..WordLength(t)]] + Words(t[WordLength(t)..])
  {
  }

  /** Whitespace at the end makes no word. */
  lemma {:induction false} WordsPadded(s: string, pad: string)
    requires Blank(pad)
    ensures Words(s + pad) == Words(s)
    decreases |s|
  {
    hide Words, TrimStart, WordLength;
    var t := TrimStart(s);
    TrimStartThen(s, pad);
    if t == "" {
      WordsOfBlank(s);
      WordsOfBlank(s + pad);
    } else {
      var n := WordLength(t);
      WordLengthThen(t, pad);
      WordLengthPositive(t);
      ConcatAt(t, pad, n);
      WordsStep(s, t);
      WordsStep(s + pad, t + pad);
      WordsPadded(t[n..], pad);
    }
  }

  lemma WordLengthPositive(t: string)
    requires t != "" && !IsWhitespace(t[0])
    ensures WordLength(t) > 0
  {
  }

  lemma WordsOfBlank(s: string)
    requires TrimStart(s) == ""
    ensures Words(s) == []
  {
  }

  /** Nor does whitespace at the start. */
  lemma WordsTrim(s: string)
    ensures Words(Trim(s)) == Words(s)
  {
    hide Words;
    var e := TrimEnd(s);
    TrimEndRest(s);
    assert s == e + s[|e|..];
    WordsPadded(e, s[|e|..]);
    WordsOfTrimStart(e);
  }

  lemma WordsOfTrimStart(s: string)
    ensures Words(TrimStart(s)) == Words(s)
  {
    assert TrimStart(TrimStart(s)) == TrimStart(s);
  }

  lemma {:induction false} TrimEndRest(s: string)
    ensures Blank(s[|TrimEnd(s)|..])
  {
    if s != "" && IsWhitespace(s[|s| - 1]) {
      var rest := s[..|s| - 1];
      TrimEndRest(rest);
      var n := |TrimEnd(rest)|;
      forall i | 0 <= i < |s[n..]|
        ensures IsWhitespace(s[n..][i])
      {
        assert i < |rest[n..]| ==> s[n..][i] == rest[n..][i];
      }
    }
  }

  // ---------- lines ----------

  function DropCr(s: string): string {
    if s != [] && s[|s| - 1] == '\r' then s[..|s| - 1] else s
  }

  /** `str::lines`: a final line without a newline counts, an empty one after
      the last newline does not, and `\r\n` ends a line as `\n` does. */
  function Lines(s: string): (ls: seq<string>)
    ensures forall i :: 0 <= i < |ls| ==> '\n' !in ls[i]
  {
    if s == [] then [] else
      var n := Find(s, '\n');
      if n == |s| then [s] else [DropCr(s[..n])] + Lines(s[n + 1..])
  }

  /** Every line followed by a newline. */
  function Unlines(ls: seq<string>): string {
    if ls == [] then "" else ls[0] + "\n" + Unlines(ls[1..])
  }

  lemma {:induction false} UnlinesConcat(a: seq<string>, b: seq<string>)
    ensures Unlines(a + b) == Unlines(a) + Unlines(b)
  {
    if a == [] {
      assert a + b == b;
    } else {
      assert (a + b)[1..] == a[1..] + b;
      UnlinesConcat(a[1..], b);
    }
  }

  function DropCrs(ls: seq<string>): seq<string> {
    if ls == [] then [] else [DropCr(ls[0])] + DropCrs(ls[1..])
  }

  /** A line as an LF file holds it: no newline, no carriage return at the end. */
  predicate IsLine(s: string) {
    '\n' !in s && (s == [] || s[|s| - 1] != '\r')
  }

  predicate AreLines(ls: seq<string>) {
    forall i :: 0 <= i < |ls| ==> IsLine(ls[i])
  }

  lemma LinesOfOneMore(line: string, rest: string)
    requires '\n' !in line
    ensures Lines(line + "\n" + rest) == [DropCr(line)] + Lines(rest)
  {
    var s := line + ['\n'] + rest;
    FindIs(line, '\n', rest);
    assert s[..|line|] == line && s[|line| + 1..] == rest;
  }

  lemma LinesOfUnlinesCons(ls: seq<string>, tail: string)
    requires ls != [] && '\n' !in ls[0]
    ensures Lines(Unlines(ls) + tail) == [DropCr(ls[0])] + Lines(Unlines(ls[1..]) + tail)
  {
    var rest := Unlines(ls[1..]) + tail;
    assert Unlines(ls) + tail == ls[0] + "\n" + rest;
    LinesOfOneMore(ls[0], rest);
  }

  lemma {:induction false} LinesUnlinesThen(ls: seq<string>, tail: string)
    requires forall i :: 0 <= i < |ls| ==> '\n' !in ls[i]
    ensures Lines(Unlines(ls) + tail) == DropCrs(ls) + Lines(tail)
  {
    hide Lines;
    if ls == [] {
      assert Unlines(ls) + tail == tail;
      assert [] + Lines(tail) == Lines(tail);
    } else {
      LinesOfUnlinesCons(ls, tail);
      LinesUnlinesThen(ls[1..], tail);
      ConcatAssociates([DropCr(ls[0])], DropCrs(ls[1..]), Lines(tail));
    }
  }

  lemma LinesUnlines(ls: seq<string>)
    requires forall i :: 0 <= i < |ls| ==> '\n' !in ls[i]
    ensures Lines(Unlines(ls)) == DropCrs(ls)
    ensures AreLines(ls) ==> Lines(Unlines(ls)) == ls
  {
    LinesUnlinesThen(ls, "");
    assert Unlines(ls) + "" == Unlines(ls);
    assert DropCrs(ls) + Lines("") == DropCrs(ls);
    if AreLines(ls) { DropCrsOfLines(ls); }
  }

  lemma {:induction false} DropCrsOfLines(ls: seq<string>)
    requires AreLines(ls)
    ensures DropCrs(ls) == ls
  {
    if ls != [] { DropCrsOfLines(ls[1..]); }
  }

  /** A newline with two carriage returns before it. */
  predicate DoubledAt(s: string, k: nat) {
    2 <= k < |s| && s[k] == '\n' && s[k - 1] == '\r' && s[k - 2] == '\r'
  }

  /** A carriage return that `lines` does not take off: the first of two before a
      newline, or one at the end of the text. */
  predicate LeavesCr(s: string) {
    (s != "" && s[|s| - 1] == '\r') || exists k | 0 <= k < |s| :: DoubledAt(s, k)
  }

  lemma DoubledAfterLine(line: string, rest: string, k: nat)
    requires '\n' !in line
    ensures var s, n := line + ['\n'] + rest, |line|;
            DoubledAt(s, k) <==> (k == n && !IsLine(DropCr(line))) || (k > n && DoubledAt(rest, k - n - 1))
  {
    var s, n := line + ['\n'] + rest, |line|;
    assert k < n ==> s[k] == line[k];
    assert s[n] == '\n' && (n >= 1 ==> s[n - 1] == line[n - 1]) && (n >= 2 ==> s[n - 2] == line[n - 2]);
    assert n < k < |s| ==> s[k] == rest[k - n - 1];
    assert n + 1 < k < |s| ==> s[k - 1] == rest[k - n - 2];
    assert n + 2 < k < |s| ==> s[k - 2] == rest[k - n - 3];
  }

  lemma LeavesCrAfterLine(line: string, rest: string)
    requires '\n' !in line
    ensures LeavesCr(line + ['\n'] + rest) <==> !IsLine(DropCr(line)) || LeavesCr(rest)
  {
    hide DoubledAt, IsLine, DropCr;
    var s, n := line + ['\n'] + rest, |line|;
    assert s[|s| - 1] == if rest == "" then '\n' else rest[|rest| - 1];
    DoubledAfterLine(line, rest, n);
    forall k | 0 <= k < |rest|
      ensures DoubledAt(rest, k) <==> DoubledAt(s, k + n + 1)
    {
      DoubledAfterLine(line, rest, k + n + 1);
    }
    forall k | 0 <= k < |s|
      ensures DoubledAt(s, k) ==> (k == n && !IsLine(DropCr(line))) || (k > n && DoubledAt(rest, k - n - 1))
    {
      DoubledAfterLine(line, rest, k);
    }
  }

  /** The lines of a text are lines without carriage returns at their ends exactly if
      the text leaves none. */
  lemma {:induction false} LinesLeaveNoCr(s: string)
    ensures AreLines(Lines(s)) <==> !LeavesCr(s)
  {
    if s != [] {
      var n := Find(s, '\n');
      if n == |s| {
        assert Lines(s) == [s];
        assert forall k :: 0 <= k < |s| ==> !DoubledAt(s, k);
      } else {
        var line, rest := s[..n], s[n + 1..];
        assert s == line + ['\n'] + rest;
        LinesLeaveNoCr(rest);
        LeavesCrAfterLine(line, rest);
        FirstThenLines(DropCr(line), Lines(rest));
      }
    }
  }

  lemma FirstThenLines(first: string, rest: seq<string>)
    ensures AreLines([first] + rest) <==> IsLine(first) && AreLines(rest)
  {
    var all := [first] + rest;
    assert all[0] == first && forall i :: 0 <= i < |rest| ==> all[i + 1] == rest[i];
  }

  // ---------- decimal numbers ----------

  const U32_MAX := 0xFFFF_FFFF

  function DigitChar(d: nat): (c: char)
    requires d < 10
    ensures IsDigit(c)
  {
    ('0' as int + d) as char
  }

  function DigitValue(c: char): (d: nat)
    requires IsDigit(c)
    ensures d < 10 && DigitChar(d) == c
  {
    c as int - '0' as int
  }

  predicate AllDigits(s: string) {
    forall i :: 0 <= i < |s| ==> IsDigit(s[i])
  }

  /** A number as `Display` writes it: no leading zeros. */
  function Decimal(n: nat): (s: string)
    ensures |s| >= 1 && AllDigits(s)
    ensures n > 0 ==> s[0] != '0'
    ensures n == 0 ==> s == "0"
  {
    if n < 10 then [DigitChar(n)] else Decimal(n / 10) + [DigitChar(n % 10)]
  }

  function DigitsValue(s: string): nat
    requires AllDigits(s)
  {
    if s == [] then 0 else 10 * DigitsValue(s[..|s| - 1]) + DigitValue(s[|s| - 1])
  }

  lemma {:induction false} DecimalValue(n: nat)
    ensures DigitsValue(Decimal(n)) == n
  {
    var s := Decimal(n);
    if n < 10 {
      assert s[..|s| - 1] == [];
    } else {
      assert s[..|s| - 1] == Decimal(n / 10);
      DecimalValue(n / 10);
    }
  }

  /** `str::parse` for an unsigned integer type whose largest value is `max`:
      a sign `+` may lead, at least one digit must follow, and a number that
      does not fit is refused. */
  function ParseUnsigned(s: string, max: nat): Option<nat> {
    var digits := if s != [] && s[0] == '+' then s[1..] else s;
    if digits == [] || !AllDigits(digits) then None
    else if DigitsValue(digits) > max then None
    else Some(DigitsValue(digits))
  }

  lemma ParseDecimal(n: nat, max: nat)
    ensures ParseUnsigned(Decimal(n), max) == if n <= max then Some(n) else None
  {
    DecimalValue(n);
    assert Decimal(n)[0] != '+';
  }

  /** Digits without a leading zero are the decimal form of their value. */
  lemma {:induction false} DecimalOfValue(s: string)
    requires s != "" && AllDigits(s) && (|s| > 1 ==> s[0] != '0')
    ensures Decimal(DigitsValue(s)) == s
    ensures s[0] != '0' ==> DigitsValue(s) > 0
  {
    var front, last := s[..|s| - 1], s[|s| - 1];
    if front == "" {
      assert s == [last];
    } else {
      DecimalOfValue(front);
      var n := DigitsValue(s);
      assert n / 10 == DigitsValue(front) && n % 10 == DigitValue(last);
      assert s == front + [last];
    }
  }

  lemma DecimalInjective(m: nat, n: nat)
    requires Decimal(m) == Decimal(n)
    ensures m == n
  {
    DecimalValue(m);
    DecimalValue(n);
  }
}
