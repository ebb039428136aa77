/** `crate_paths` of src/tree.rs: every `crate::` path in some code, a `{..}`
    group opened into one path per name.

    The code walks a shrinking slice with `find`; `PathsFrom` says the same by
    position: a path starts wherever `crate::` stands and no identifier
    character stands before it. Printing a list of imports and extracting the
    paths gives the list back.
 */
module TreePaths {
  import opened Text

  const CRATE := "crate::"

  /** What is used of Unicode's alphanumeric table: on ASCII it is the letters
      and digits, and no whitespace is in it. */
  ghost predicate Table(alnum: char -> bool) {
    && (forall c :: IsAscii(c) ==> (alnum(c) <==> IsDigit(c) || IsLower(c) || IsUpper(c)))
    && (forall c :: IsWhitespace(c) ==> !alnum(c))
  }

  /** What the code takes for a part of an identifier. */
  predicate IsIdent(alnum: char -> bool, c: char) { alnum(c) || c == '_' }

  /** A character of a word: a letter, a digit or an underscore. */
  predicate IsWordChar(alnum: char -> bool, c: char) { alnum(c) || c == '_' }

  /** The length of the identifier that `text` begins with. */
  function IdentLength(alnum: char -> bool, text: string): (n: nat)
    ensures n <= |text|
    ensures forall k :: 0 <= k < n ==> IsIdent(alnum, text[k])
    ensures n < |text| ==> !IsIdent(alnum, text[n])
  {
    if text != "" && IsIdent(alnum, text[0]) then 1 + IdentLength(alnum, text[1..]) else 0
  }

  /** Identifiers joined by `::`, and what follows the last of them. */
  datatype Read = Read(parts: seq<string>, rest: string)

  /** What one turn of the loop in `segments` goes on with, if anything. */
  function Next(rest: string): Option<string> {
    if StartsWith(rest, "::") && !StartsWith(rest[2..], "{") then Some(rest[2..]) else None
  }

  function Segments(alnum: char -> bool, text: string): Read
    decreases |text|
  {
    var n := IdentLength(alnum, text);
    if n == 0 then Read([], text)
    else match Next(text[n..])
      case None => Read([text[..n]], text[n..])
      case Some(more) =>
        var read := Segments(alnum, more);
        Read([text[..n]] + read.parts, read.rest)
  }

  /** What has been read and what the rest of the text adds make the whole. */
  predicate Reads(alnum: char -> bool, parts: seq<string>, rest: string, whole: Read) {
    parts + Segments(alnum, rest).parts == whole.parts && Segments(alnum, rest).rest == whole.rest
  }

  lemma ReadsNothing(alnum: char -> bool, parts: seq<string>, rest: string, whole: Read)
    requires Reads(alnum, parts, rest, whole) && IdentLength(alnum, rest) == 0
    ensures Read(parts, rest) == whole
  {
    assert parts + [] == parts;
  }

  lemma ReadsOne(alnum: char -> bool, parts: seq<string>, rest: string, whole: Read)
    requires Reads(alnum, parts, rest, whole) && IdentLength(alnum, rest) > 0
    ensures var n := IdentLength(alnum, rest);
            match Next(rest[n..])
            case None => Read(parts + [rest[..n]], rest[n..]) == whole
            case Some(more) => Reads(alnum, parts + [rest[..n]], more, whole)
  {
    hide IdentLength;
    var n := IdentLength(alnum, rest);
    match Next(rest[n..])
    case None =>
    case Some(more) => ConcatAssociates(parts, [rest[..n]], Segments(alnum, more).parts);
  }

  method SegmentsOf(alnum: char -> bool, text: string) returns (parts: seq<string>, rest: string)
    ensures Read(parts, rest) == Segments(alnum, text)
  {
    hide Segments, IdentLength, Reads;
    parts, rest := [], text;
    ReadsAll(alnum, text);
    while true
      invariant Reads(alnum, parts, rest, Segments(alnum, text))
      decreases |rest|
    {
      var length := IdentLength(alnum, rest);
      if length == 0 {
        ReadsNothing(alnum, parts, rest, Segments(alnum, text));
        return;
      }
      ReadsOne(alnum, parts, rest, Segments(alnum, text));
      parts := parts + [rest[..length]];
      var next := Next(rest[length..]);
      rest := rest[length..];
      if next == None {
        return;
      }
      rest := next.value;
    }
  }

  lemma ReadsAll(alnum: char -> bool, text: string)
    ensures Reads(alnum, [], text, Segments(alnum, text))
  {
    assert [] + Segments(alnum, text).parts == Segments(alnum, text).parts;
  }

  /** One name of a group: a path, unless the name is blank. */
  function OpenName(alnum: char -> bool, prefix: seq<string>, name: string): seq<seq<string>> {
    var tail := Segments(alnum, Trim(name)).parts;
    if tail == [] then [] else [prefix + tail]
  }

  function GroupPaths(alnum: char -> bool, prefix: seq<string>, names: seq<string>): seq<seq<string>> {
    if names == [] then [] else OpenName(alnum, prefix, names[0]) + GroupPaths(alnum, prefix, names[1..])
  }

  /** The paths that `crate::` followed by `text` stands for. */
  function PathsAt(alnum: char -> bool, text: string): seq<seq<string>> {
    var read := Segments(alnum, text);
    if StartsWith(read.rest, "::{") then
      var group := read.rest[3..];
      GroupPaths(alnum, read.parts, Split(group[..Find(group, '}')], ','))
    else [read.parts]
  }

  predicate StartsPath(alnum: char -> bool, code: string, p: nat) {
    At(code, p, "crate::") && !(p > 0 && IsWordChar(alnum, code[p - 1]))
  }

  function PathsFrom(alnum: char -> bool, code: string, p: nat): seq<seq<string>>
    decreases |code| - p
  {
    if p >= |code| then []
    else (if StartsPath(alnum, code, p) then PathsAt(alnum, code[p + |CRATE|..]) else [])
         + PathsFrom(alnum, code, p + 1)
  }

  // ---------- the search by slices ----------

  /** `str::find` for a word: the first place it stands, or the length. */
  function FindWord(s: string, word: string): (n: nat)
    requires word != ""
    ensures n <= |s|
    ensures n < |s| ==> At(s, n, word)
    ensures forall k :: 0 <= k < n ==> !At(s, k, word)
  {
    if s == "" || At(s, 0, word) then 0 else
      AtRest(s, word);
      1 + FindWord(s[1..], word)
  }

  lemma AtRest(s: string, word: string)
    requires s != ""
    ensures forall k :: 1 <= k < |s| ==> (At(s, k, word) <==> At(s[1..], k - 1, word))
    ensures forall k :: 0 <= k < |s| - 1 ==> (At(s[1..], k, word) <==> At(s, k + 1, word))
  {
    forall k | 0 <= k < |s| - 1
      ensures At(s[1..], k, word) <==> At(s, k + 1, word)
    {
      AtInSlice(s, 1, k, word);
    }
  }

  /** No path starts between two positions. */
  predicate Quiet(alnum: char -> bool, code: string, p: nat, q: nat) {
    forall k :: p <= k < q ==> !StartsPath(alnum, code, k)
  }

  lemma {:induction false} QuietSkips(alnum: char -> bool, code: string, p: nat, q: nat)
    requires p <= q <= |code| && Quiet(alnum, code, p, q)
    ensures PathsFrom(alnum, code, p) == PathsFrom(alnum, code, q)
    decreases q - p
  {
    if p < q { QuietSkips(alnum, code, p + 1, q); }
  }

  method OpenGroup(alnum: char -> bool, prefix: seq<string>, names: seq<string>)
    returns (paths: seq<seq<string>>)
    ensures paths == GroupPaths(alnum, prefix, names)
  {
    hide Segments, Text.Trim;
    paths := [];
    for i := 0 to |names|
      invariant paths + GroupPaths(alnum, prefix, names[i..]) == GroupPaths(alnum, prefix, names)
    {
      assert names[i..][1..] == names[i + 1..];
      ConcatAssociates(paths, OpenName(alnum, prefix, names[i]), GroupPaths(alnum, prefix, names[i + 1..]));
      var tail, _ := SegmentsOf(alnum, Trim(names[i]));
      paths := paths + if tail == [] then [] else [prefix + tail];
    }
  }

  /** The text after one `crate::`: what the loop body pushes for it. */
  method PathsAfter(alnum: char -> bool, text: string) returns (paths: seq<seq<string>>)
    ensures paths == PathsAt(alnum, text)
  {
    var prefix, after := SegmentsOf(alnum, text);
    if StartsWith(after, "::{") {
      var group := after[3..];
      var end := Find(group, '}');
      paths := OpenGroup(alnum, prefix, Split(group[..end], ','));
    } else {
      paths := [prefix];
    }
  }

  /** `found` and then the paths from `p` on are all the paths. */
  ghost predicate FoundSoFar(alnum: char -> bool, code: string, found: seq<seq<string>>, p: nat) {
    found + PathsFrom(alnum, code, p) == PathsFrom(alnum, code, 0)
  }

  lemma FoundOneMore(alnum: char -> bool, code: string, found: seq<seq<string>>, p: nat, at: nat)
    requires p <= |code| && (p == 0 || code[p - 1] == ':') && Table(alnum)
    requires at == FindWord(code[p..], CRATE) < |code[p..]|
    requires FoundSoFar(alnum, code, found, p)
    ensures At(code, p + at, CRATE) && code[p + at + |CRATE| - 1] == ':'
    ensures if at == 0 || !IsWordChar(alnum, code[p..][at - 1])
            then FoundSoFar(alnum, code, found + PathsAt(alnum, code[p + at + |CRATE|..]), p + at + |CRATE|)
            else FoundSoFar(alnum, code, found, p + at + |CRATE|)
  {
    hide PathsFrom, PathsAt, FindWord, StartsPath;
    NextCrate(alnum, code, p, at);
    QuietUntil(alnum, code, p, at);
    QuietSkips(alnum, code, p, p + at);
    OneCrate(alnum, code, p + at);
    var paths := PathsAt(alnum, code[p + at + |CRATE|..]);
    ConcatAssociates(found, paths, PathsFrom(alnum, code, p + at + |CRATE|));
  }

  /** `crate_paths`: `rest` is what follows the last `crate::` found. */
  method CratePaths(alnum: char -> bool, code: string) returns (found: seq<seq<string>>)
    requires Table(alnum)
    ensures found == PathsFrom(alnum, code, 0)
  {
    hide PathsFrom, PathsAt, FindWord;
    found := [];
    var rest := code;
    ghost var p := 0;
    assert found + PathsFrom(alnum, code, 0) == PathsFrom(alnum, code, 0);
    var at := FindWord(rest, CRATE);
    while at < |rest|
      invariant p <= |code| && rest == code[p..] && at == FindWord(rest, CRATE)
      invariant p == 0 || code[p - 1] == ':'
      invariant FoundSoFar(alnum, code, found, p)
      decreases |rest|
    {
      FoundOneMore(alnum, code, found, p, at);
      var counts := at == 0 || !IsIdent(alnum, rest[at - 1]);
      rest := rest[at + |CRATE|..];
      p := p + at + |CRATE|;
      assert rest == code[p..];
      if counts {
        var paths := PathsAfter(alnum, rest);
        found := found + paths;
      }
      at := FindWord(rest, CRATE);
    }
    NoMoreCrate(alnum, code, p);
    assert found + [] == found;
  }

  lemma AtInSlice(s: string, p: nat, k: nat, word: string)
    requires p + k <= |s|
    ensures At(s[p..], k, word) == At(s, p + k, word)
  {
    if p + k + |word| <= |s| {
      assert s[p..][k..k + |word|] == s[p + k..p + k + |word|];
    }
  }

  lemma NoMoreCrate(alnum: char -> bool, code: string, p: nat)
    requires p <= |code| && FindWord(code[p..], CRATE) == |code[p..]|
    ensures PathsFrom(alnum, code, p) == []
  {
    forall k | p <= k < |code|
      ensures !StartsPath(alnum, code, k)
    {
      AtInSlice(code, p, k - p, CRATE);
    }
    QuietSkips(alnum, code, p, |code|);
  }

  lemma CrateInside(alnum: char -> bool, code: string, p: nat)
    requires Table(alnum) && At(code, p, CRATE)
    ensures Quiet(alnum, code, p + 1, p + |CRATE|)
  {
    forall k | p < k < p + |CRATE|
      ensures code[k] != 'c'
    {
      assert code[k] == code[p..p + |CRATE|][k - p];
    }
    QuietWithoutC(alnum, code, p + 1, p + |CRATE|);
  }

  lemma QuietWithoutC(alnum: char -> bool, code: string, p: nat, q: nat)
    requires q <= |code| && forall k :: p <= k < q ==> code[k] != 'c'
    ensures Quiet(alnum, code, p, q)
  {
    forall k | p <= k < q
      ensures !StartsPath(alnum, code, k)
    {
      assert k + |CRATE| <= |code| ==> code[k..k + |CRATE|][0] == code[k];
    }
  }

  lemma OneCrate(alnum: char -> bool, code: string, start: nat)
    requires Table(alnum) && At(code, start, CRATE)
    ensures PathsFrom(alnum, code, start)
            == (if StartsPath(alnum, code, start) then PathsAt(alnum, code[start + |CRATE|..]) else [])
               + PathsFrom(alnum, code, start + |CRATE|)
  {
    CrateInside(alnum, code, start);
    QuietSkips(alnum, code, start + 1, start + |CRATE|);
  }

  lemma CrateLetters(code: string, k: nat)
    requires At(code, k, CRATE)
    ensures code[k] == 'c' && code[k + 1] == 'r' && code[k + 2] == 'a' && code[k + 3] == 't' && code[k + 4] == 'e'
    ensures code[k + 5] == ':' && code[k + 6] == ':'
    ensures code[k..k + 5] == "crate"
  {
    var w := code[k..k + |CRATE|];
    assert w == CRATE;
    assert w[..5] == code[k..k + 5] && CRATE[..5] == "crate";
    assert w[0] == code[k] && w[1] == code[k + 1] && w[2] == code[k + 2] && w[3] == code[k + 3] && w[4] == code[k + 4];
    assert w[5] == code[k + 5] && w[6] == code[k + 6];
  }

  lemma QuietUntil(alnum: char -> bool, code: string, p: nat, at: nat)
    requires p <= |code| && at == FindWord(code[p..], CRATE)
    ensures Quiet(alnum, code, p, p + at)
  {
    forall k | p <= k < p + at
      ensures !StartsPath(alnum, code, k)
    {
      AtInSlice(code, p, k - p, CRATE);
    }
  }

  /** The next place `find` reports is the next place `crate::` stands. */
  lemma NextCrate(alnum: char -> bool, code: string, p: nat, at: nat)
    requires p <= |code| && (p == 0 || code[p - 1] == ':') && Table(alnum)
    requires at == FindWord(code[p..], CRATE) < |code[p..]|
    ensures At(code, p + at, CRATE) && code[p + at + |CRATE| - 1] == ':'
    ensures StartsPath(alnum, code, p + at) <==> at == 0 || !IsWordChar(alnum, code[p..][at - 1])
  {
    AtInSlice(code, p, at, CRATE);
    CrateLetters(code, p + at);
    assert at > 0 ==> code[p..][at - 1] == code[p + at - 1];
    assert IsAscii(':');
  }

  // ---------- imports as they are written ----------

  /** A name in a group, with the whitespace around it; no parts at all is the
      blank after a last comma. */
  datatype Entry = Entry(lead: string, path: seq<string>, trail: string)

  datatype Import =
    | Single(path: seq<string>)
    | Group(prefix: seq<string>, entries: seq<Entry>)

  /** Some other code, then an import. */
  datatype Piece = Piece(filler: string, imported: Import)

  predicate Word(alnum: char -> bool, w: string) {
    w != "" && w != "crate" && forall k :: 0 <= k < |w| ==> IsWordChar(alnum, w[k])
  }

  predicate AreIdents(alnum: char -> bool, path: seq<string>) {
    forall k :: 0 <= k < |path| ==> Word(alnum, path[k])
  }

  predicate EntryOk(alnum: char -> bool, e: Entry) {
    Blank(e.lead) && Blank(e.trail) && AreIdents(alnum, e.path)
  }

  predicate ImportOk(alnum: char -> bool, i: Import) {
    match i
    case Single(path) => path != [] && AreIdents(alnum, path)
    case Group(prefix, entries) =>
      && prefix != [] && AreIdents(alnum, prefix)
      && entries != [] && forall k :: 0 <= k < |entries| ==> EntryOk(alnum, entries[k])
  }

  function PathText(path: seq<string>): string { Join(path, "::") }

  function EntryText(e: Entry): string { e.lead + PathText(e.path) + e.trail }

  function EntryTexts(entries: seq<Entry>): seq<string> {
    if entries == [] then [] else [EntryText(entries[0])] + EntryTexts(entries[1..])
  }

  /** What follows `crate::`. */
  function ImportText(i: Import): string {
    match i
    case Single(path) => PathText(path)
    case Group(prefix, entries) => PathText(prefix) + ("::{" + Join(EntryTexts(entries), ",") + "}")
  }

  function Opened(prefix: seq<string>, entries: seq<Entry>): seq<seq<string>> {
    if entries == [] then []
    else (if entries[0].path == [] then [] else [prefix + entries[0].path]) + Opened(prefix, entries[1..])
  }

  /** The paths an import stands for. */
  function Expanded(i: Import): seq<seq<string>> {
    match i
    case Single(path) => [path]
    case Group(prefix, entries) => Opened(prefix, entries)
  }

  // ---------- reading one path ----------

  /** Nothing that goes on with the path before it. */
  predicate EndsPath(alnum: char -> bool, rest: string) {
    rest == "" || (!IsWordChar(alnum, rest[0]) && Next(rest) == None)
  }

  lemma {:induction false} IdentLengthIs(alnum: char -> bool, w: string, rest: string)
    requires forall k :: 0 <= k < |w| ==> IsWordChar(alnum, w[k])
    requires rest == "" || !IsWordChar(alnum, rest[0])
    ensures IdentLength(alnum, w + rest) == |w|
  {
    if w == "" {
      assert w + rest == rest;
    } else {
      assert (w + rest)[1..] == w[1..] + rest;
      IdentLengthIs(alnum, w[1..], rest);
    }
  }

  lemma SegmentsOne(alnum: char -> bool, w: string, rest: string)
    requires Word(alnum, w)
    requires rest == "" || !IsWordChar(alnum, rest[0])
    ensures Segments(alnum, w + rest) ==
            match Next(rest)
            case None => Read([w], rest)
            case Some(more) => Read([w] + Segments(alnum, more).parts, Segments(alnum, more).rest)
  {
    IdentLengthIs(alnum, w, rest);
    assert (w + rest)[..|w|] == w && (w + rest)[|w|..] == rest;
  }

  lemma PathTextStarts(alnum: char -> bool, path: seq<string>)
    requires path != [] && AreIdents(alnum, path)
    ensures PathText(path) != "" && IsWordChar(alnum, PathText(path)[0])
  {
  }

  lemma NextWord(alnum: char -> bool, text: string)
    requires Table(alnum) && text != "" && IsWordChar(alnum, text[0])
    ensures Next("::" + text) == Some(text) && !IsWordChar(alnum, ("::" + text)[0])
  {
    assert ("::" + text)[2..] == text;
    assert ("::" + text)[..2] == "::";
    assert IsAscii('{') && IsAscii(':');
    assert |text| >= 1 ==> text[..1] == [text[0]];
  }

  lemma SegmentsMore(alnum: char -> bool, w: string, more: string, tail: seq<string>, rest: string)
    requires Table(alnum) && Word(alnum, w)
    requires more != "" && IsWordChar(alnum, more[0])
    requires Segments(alnum, more) == Read(tail, rest)
    ensures Segments(alnum, w + ("::" + more)) == Read([w] + tail, rest)
  {
    NextWord(alnum, more);
    SegmentsOne(alnum, w, "::" + more);
  }

  lemma PathTextMore(path: seq<string>, rest: string)
    requires |path| > 1
    ensures PathText(path) + rest == path[0] + ("::" + (PathText(path[1..]) + rest))
    ensures [path[0]] + path[1..] == path
  {
  }

  lemma {:induction false} SegmentsOfPath(alnum: char -> bool, path: seq<string>, rest: string)
    requires Table(alnum) && path != [] && AreIdents(alnum, path) && EndsPath(alnum, rest)
    ensures Segments(alnum, PathText(path) + rest) == Read(path, rest)
  {
    if |path| == 1 {
      assert path == [path[0]];
      SegmentsOne(alnum, path[0], rest);
    } else {
      SegmentsOfPath(alnum, path[1..], rest);
      PathTextStarts(alnum, path[1..]);
      PathTextMore(path, rest);
      SegmentsMore(alnum, path[0], PathText(path[1..]) + rest, path[1..], rest);
    }
  }

  lemma {:induction false} PathTextTrimmed(alnum: char -> bool, path: seq<string>)
    requires Table(alnum) && AreIdents(alnum, path)
    ensures Trimmed(PathText(path))
    ensures path != [] ==> PathText(path) != "" && IsWordChar(alnum, PathText(path)[|PathText(path)| - 1])
  {
    if |path| > 1 {
      PathTextTrimmed(alnum, path[1..]);
    }
    if path != [] {
      PathTextStarts(alnum, path);
      assert !IsWhitespace('_');
    }
  }

  /** One name of a group is one path, or nothing. */
  lemma OpensEntry(alnum: char -> bool, prefix: seq<string>, e: Entry)
    requires Table(alnum) && EntryOk(alnum, e)
    ensures OpenName(alnum, prefix, EntryText(e)) == if e.path == [] then [] else [prefix + e.path]
  {
    PathTextTrimmed(alnum, e.path);
    TrimPadded(e.lead, PathText(e.path), e.trail);
    if e.path == [] {
      assert Segments(alnum, "") == Read([], "");
    } else {
      SegmentsOfPath(alnum, e.path, "");
      assert PathText(e.path) + "" == PathText(e.path);
    }
  }

  lemma {:induction false} OpensEntries(alnum: char -> bool, prefix: seq<string>, entries: seq<Entry>)
    requires Table(alnum) && forall k :: 0 <= k < |entries| ==> EntryOk(alnum, entries[k])
    ensures GroupPaths(alnum, prefix, EntryTexts(entries)) == Opened(prefix, entries)
  {
    if entries != [] {
      OpensEntry(alnum, prefix, entries[0]);
      OpensEntries(alnum, prefix, entries[1..]);
      assert EntryTexts(entries)[1..] == EntryTexts(entries[1..]);
    }
  }

  // ---------- the characters of an import ----------

  /** A character that can stand in a path or in the whitespace around one. */
  predicate PathChar(alnum: char -> bool, c: char) { IsWordChar(alnum, c) || c == ':' || IsWhitespace(c) }

  predicate PathChars(alnum: char -> bool, s: string) {
    forall k :: 0 <= k < |s| ==> PathChar(alnum, s[k])
  }

  lemma {:induction false} PathTextChars(alnum: char -> bool, path: seq<string>)
    requires AreIdents(alnum, path)
    ensures PathChars(alnum, PathText(path))
  {
    if |path| > 1 { PathTextChars(alnum, path[1..]); }
  }

  lemma EntryTextChars(alnum: char -> bool, e: Entry)
    requires Table(alnum) && EntryOk(alnum, e)
    ensures PathChars(alnum, EntryText(e))
    ensures ',' !in EntryText(e) && '}' !in EntryText(e)
  {
    PathTextChars(alnum, e.path);
    assert IsAscii(',') && IsAscii('}');
  }

  lemma {:induction false} EntryTextsChars(alnum: char -> bool, entries: seq<Entry>)
    requires Table(alnum) && forall k :: 0 <= k < |entries| ==> EntryOk(alnum, entries[k])
    ensures |EntryTexts(entries)| == |entries|
    ensures forall k :: 0 <= k < |entries| ==> ',' !in EntryTexts(entries)[k]
    ensures '}' !in Join(EntryTexts(entries), ",")
  {
    if entries != [] {
      EntryTextChars(alnum, entries[0]);
      EntryTextsChars(alnum, entries[1..]);
      assert EntryTexts(entries)[1..] == EntryTexts(entries[1..]);
    }
  }

  lemma PathsOfGroup(alnum: char -> bool, prefix: seq<string>, entries: seq<Entry>, rest: string)
    requires Table(alnum) && ImportOk(alnum, Group(prefix, entries))
    ensures PathsAt(alnum, ImportText(Group(prefix, entries)) + rest) == Opened(prefix, entries)
  {
    hide Text.Split, Text.Join, Segments;
    var inside := Join(EntryTexts(entries), ",");
    var after := "::{" + inside + "}" + rest;
    assert ImportText(Group(prefix, entries)) + rest == PathText(prefix) + after;
    assert IsAscii(':') && after[0] == ':';
    assert after[..2] == "::" && after[2..][..1] == "{";
    SegmentsOfPath(alnum, prefix, after);
    assert after[..3] == "::{" && after[3..] == inside + ['}'] + rest;
    EntryTextsChars(alnum, entries);
    FindIs(inside, '}', rest);
    assert after[3..][..|inside|] == inside;
    SplitJoin(EntryTexts(entries), ',');
    OpensEntries(alnum, prefix, entries);
  }

  /** The text of an import, wherever it stands, gives its paths. */
  lemma PathsOfImport(alnum: char -> bool, i: Import, rest: string)
    requires Table(alnum) && ImportOk(alnum, i)
    requires i.Single? ==> Ends(alnum, rest)
    ensures PathsAt(alnum, ImportText(i) + rest) == Expanded(i)
  {
    match i
    case Single(path) =>
      EndsIsEnd(alnum, rest);
      SegmentsOfPath(alnum, path, rest);
    case Group(prefix, entries) =>
      PathsOfGroup(alnum, prefix, entries, rest);
  }

  /** What may follow a single path: neither an identifier nor a colon. */
  predicate Ends(alnum: char -> bool, rest: string) {
    rest == "" || (!IsWordChar(alnum, rest[0]) && rest[0] != ':')
  }

  lemma EndsIsEnd(alnum: char -> bool, rest: string)
    requires Ends(alnum, rest)
    ensures EndsPath(alnum, rest) && !StartsWith(rest, "::{")
  {
    assert |rest| >= 2 ==> rest[..2][0] == rest[0];
    assert |rest| >= 3 ==> rest[..3][0] == rest[0];
  }

  // ---------- nothing else starts a path ----------

  lemma WordIsNotCrate(alnum: char -> bool, code: string, q: nat, w: string)
    requires Table(alnum) && Word(alnum, w) && At(code, q, w)
    requires q + |w| < |code| ==> !IsWordChar(alnum, code[q + |w|])
    ensures !At(code, q, CRATE)
  {
    assert |w| > 5 ==> code[q + 5] == code[q..q + |w|][5] == w[5];
    assert IsAscii(':') && IsAscii('c') && IsAscii('r') && IsAscii('a') && IsAscii('t') && IsAscii('e');
    if At(code, q, CRATE) {
      CrateLetters(code, q);
    }
  }

  lemma QuietWord(alnum: char -> bool, code: string, q: nat, w: string)
    requires Table(alnum) && Word(alnum, w) && At(code, q, w)
    requires q + |w| < |code| ==> !IsWordChar(alnum, code[q + |w|])
    ensures Quiet(alnum, code, q, q + |w|)
  {
    WordIsNotCrate(alnum, code, q, w);
    forall k | q <= k < q + |w|
      ensures !StartsPath(alnum, code, k)
    {
      if k > q {
        assert code[k - 1] == code[q..q + |w|][k - 1 - q] == w[k - 1 - q];
      }
    }
  }

  lemma QuietJoins(alnum: char -> bool, code: string, p: nat, q: nat, r: nat)
    requires p <= q <= r && Quiet(alnum, code, p, q) && Quiet(alnum, code, q, r)
    ensures Quiet(alnum, code, p, r)
  {
  }

  lemma QuietText(alnum: char -> bool, code: string, q: nat, text: string)
    requires At(code, q, text) && 'c' !in text
    ensures Quiet(alnum, code, q, q + |text|)
  {
    forall k | q <= k < q + |text|
      ensures code[k] != 'c'
    {
      assert code[k] == code[q..q + |text|][k - q];
    }
    QuietWithoutC(alnum, code, q, q + |text|);
  }

  lemma AtConcat(code: string, q: nat, a: string, b: string)
    ensures At(code, q, a + b) <==> At(code, q, a) && At(code, q + |a|, b)
  {
    if q + |a| + |b| <= |code| {
      var t := code[q..q + |a| + |b|];
      assert t[..|a|] == code[q..q + |a|] && t[|a|..] == code[q + |a|..q + |a| + |b|];
      assert t == t[..|a|] + t[|a|..];
      assert (a + b)[..|a|] == a && (a + b)[|a|..] == b;
    }
  }

  lemma {:induction false} QuietPath(alnum: char -> bool, code: string, q: nat, path: seq<string>)
    requires Table(alnum) && AreIdents(alnum, path) && At(code, q, PathText(path))
    requires var end := q + |PathText(path)|; end < |code| ==> !IsWordChar(alnum, code[end])
    ensures Quiet(alnum, code, q, q + |PathText(path)|)
    decreases |path|
  {
    if |path| == 1 {
      QuietWord(alnum, code, q, path[0]);
    } else if |path| > 1 {
      var w, more := path[0], PathText(path[1..]);
      assert PathText(path) == w + ("::" + more);
      AtConcat(code, q, w, "::" + more);
      AtConcat(code, q + |w|, "::", more);
      var colons := q + |w|;
      assert code[colons] == code[colons..colons + 2][0] && IsAscii(':');
      QuietWord(alnum, code, q, w);
      QuietText(alnum, code, colons, "::");
      QuietPath(alnum, code, colons + 2, path[1..]);
      QuietJoins(alnum, code, q, colons, colons + 2);
      QuietJoins(alnum, code, q, colons + 2, q + |PathText(path)|);
    }
  }

  lemma QuietEntry(alnum: char -> bool, code: string, q: nat, e: Entry)
    requires Table(alnum) && EntryOk(alnum, e) && At(code, q, EntryText(e))
    requires var end := q + |EntryText(e)|; end < |code| ==> !IsWordChar(alnum, code[end])
    ensures Quiet(alnum, code, q, q + |EntryText(e)|)
  {
    var path := PathText(e.path);
    AtConcat(code, q, e.lead + path, e.trail);
    AtConcat(code, q, e.lead, path);
    var p, r := q + |e.lead|, q + |e.lead| + |path|;
    assert !IsWhitespace('c') && !IsWhitespace('_');
    if e.trail != "" {
      assert code[r] == code[r..r + |e.trail|][0] == e.trail[0];
    }
    QuietText(alnum, code, q, e.lead);
    QuietPath(alnum, code, p, e.path);
    QuietText(alnum, code, r, e.trail);
    QuietJoins(alnum, code, q, p, r);
    QuietJoins(alnum, code, q, r, q + |EntryText(e)|);
  }

  lemma QuietComma(alnum: char -> bool, code: string, q: nat, e: Entry, more: string)
    requires Table(alnum) && EntryOk(alnum, e) && At(code, q, EntryText(e) + ("," + more))
    ensures Quiet(alnum, code, q, q + |EntryText(e)| + 1)
    ensures At(code, q + |EntryText(e)| + 1, more)
  {
    var comma := q + |EntryText(e)|;
    AtConcat(code, q, EntryText(e), "," + more);
    AtConcat(code, comma, ",", more);
    assert code[comma] == code[comma..comma + 1][0] && IsAscii(',');
    QuietEntry(alnum, code, q, e);
    QuietText(alnum, code, comma, ",");
    QuietJoins(alnum, code, q, comma, comma + 1);
  }

  lemma EntriesMore(entries: seq<Entry>)
    requires |entries| > 1
    ensures Join(EntryTexts(entries), ",") == EntryText(entries[0]) + ("," + Join(EntryTexts(entries[1..]), ","))
  {
    assert EntryTexts(entries)[1..] == EntryTexts(entries[1..]);
    assert |EntryTexts(entries[1..])| >= 1;
  }

  lemma {:induction false} QuietEntries(alnum: char -> bool, code: string, q: nat, entries: seq<Entry>)
    requires Table(alnum) && forall k :: 0 <= k < |entries| ==> EntryOk(alnum, entries[k])
    requires At(code, q, Join(EntryTexts(entries), ","))
    requires var end := q + |Join(EntryTexts(entries), ",")|; end < |code| ==> !IsWordChar(alnum, code[end])
    ensures Quiet(alnum, code, q, q + |Join(EntryTexts(entries), ",")|)
    decreases |entries|
  {
    if |entries| == 1 {
      assert EntryTexts(entries) == [EntryText(entries[0])];
      QuietEntry(alnum, code, q, entries[0]);
    } else if |entries| > 1 {
      EntriesMore(entries);
      QuietComma(alnum, code, q, entries[0], Join(EntryTexts(entries[1..]), ","));
      var next := q + |EntryText(entries[0])| + 1;
      QuietEntries(alnum, code, next, entries[1..]);
      QuietJoins(alnum, code, q, next, q + |Join(EntryTexts(entries), ",")|);
    }
  }

  lemma QuietBraces(alnum: char -> bool, code: string, open: nat, entries: seq<Entry>)
    requires Table(alnum) && forall k :: 0 <= k < |entries| ==> EntryOk(alnum, entries[k])
    requires At(code, open, "::{" + Join(EntryTexts(entries), ",") + "}")
    ensures Quiet(alnum, code, open, open + |Join(EntryTexts(entries), ",")| + 4)
    ensures code[open] == ':'
  {
    var inside := Join(EntryTexts(entries), ",");
    var close := open + 3 + |inside|;
    AtConcat(code, open, "::{" + inside, "}");
    AtConcat(code, open, "::{", inside);
    assert code[open] == code[open..open + 3][0] && code[close] == code[close..close + 1][0];
    assert IsAscii('}');
    QuietText(alnum, code, open, "::{");
    QuietEntries(alnum, code, open + 3, entries);
    QuietText(alnum, code, close, "}");
    QuietJoins(alnum, code, open, open + 3, close);
    QuietJoins(alnum, code, open, close, close + 1);
  }

  lemma QuietImport(alnum: char -> bool, code: string, q: nat, i: Import)
    requires Table(alnum) && ImportOk(alnum, i) && At(code, q, ImportText(i))
    requires i.Single? ==> Ends(alnum, code[q + |ImportText(i)|..])
    ensures Quiet(alnum, code, q, q + |ImportText(i)|)
  {
    match i
    case Single(path) =>
      QuietPath(alnum, code, q, path);
    case Group(prefix, entries) =>
      var open := q + |PathText(prefix)|;
      AtConcat(code, q, PathText(prefix), "::{" + Join(EntryTexts(entries), ",") + "}");
      QuietBraces(alnum, code, open, entries);
      assert IsAscii(':');
      QuietPath(alnum, code, q, prefix);
      QuietJoins(alnum, code, q, open, q + |ImportText(i)|);
  }

  // ---------- extraction inverts printing ----------

  function Render(pieces: seq<Piece>): string {
    if pieces == [] then "" else
      pieces[0].filler + ("crate::" + (ImportText(pieces[0].imported) + Render(pieces[1..])))
  }

  function AllPaths(pieces: seq<Piece>): seq<seq<string>> {
    if pieces == [] then [] else Expanded(pieces[0].imported) + AllPaths(pieces[1..])
  }

  /** Other code: no path starts in it, though identifiers may end in `crate`. */
  predicate Filler(alnum: char -> bool, before: string, filler: string) {
    Quiet(alnum, before + filler, |before|, |before + filler|)
  }

  /** Imports with other code between them: what comes before an import does
      not run into it, and what comes after a single path does not go on with it. */
  predicate PiecesOk(alnum: char -> bool, before: string, afterSingle: bool, pieces: seq<Piece>, last: string)
    decreases |pieces|
  {
    if pieces == [] then
      Filler(alnum, before, last) && (afterSingle ==> Ends(alnum, last))
    else
      var filler, imported := pieces[0].filler, pieces[0].imported;
      && Filler(alnum, before, filler) && (afterSingle ==> Ends(alnum, filler))
      && (before + filler == "" || !IsWordChar(alnum, (before + filler)[|before + filler| - 1]))
      && ImportOk(alnum, imported)
      && PiecesOk(alnum, before + filler + CRATE + ImportText(imported), imported.Single?, pieces[1..], last)
  }

  lemma FillerIsQuiet(alnum: char -> bool, code: string, before: string, filler: string, rest: string)
    requires code == before + filler + rest && Filler(alnum, before, filler)
    requires rest == "" || At(code, |before + filler|, CRATE)
    ensures Quiet(alnum, code, |before|, |before + filler|)
  {
    var m := |before + filler|;
    forall k | |before| <= k < m
      ensures !StartsPath(alnum, code, k)
    {
      if StartsPath(alnum, code, k) {
        CrateLetters(code, k);
        if k + |CRATE| <= m {
          assert code[k..k + |CRATE|] == (before + filler)[k..k + |CRATE|];
          assert StartsPath(alnum, before + filler, k);
        } else {
          CrateLetters(code, m);
        }
      }
    }
  }

  lemma RenderStartsWell(alnum: char -> bool, before: string, afterSingle: bool, pieces: seq<Piece>, last: string)
    requires PiecesOk(alnum, before, afterSingle, pieces, last) && afterSingle
    requires before != "" && IsWordChar(alnum, before[|before| - 1])
    ensures Ends(alnum, Render(pieces) + last)
  {
    if pieces != [] {
      var filler := pieces[0].filler;
      assert filler == "" ==> before + filler == before;
      assert filler != "" ==> (Render(pieces) + last)[0] == filler[0];
    } else {
      assert Render(pieces) + last == last;
    }
  }

  /** Reading on from `p` finds `found` and then whatever is found from `q`. */
  predicate Finds(alnum: char -> bool, code: string, p: nat, found: seq<seq<string>>, q: nat) {
    PathsFrom(alnum, code, p) == found + PathsFrom(alnum, code, q)
  }

  lemma FindsThen(alnum: char -> bool, code: string, p: nat, a: seq<seq<string>>, q: nat, b: seq<seq<string>>, r: nat)
    requires Finds(alnum, code, p, a, q) && Finds(alnum, code, q, b, r)
    ensures Finds(alnum, code, p, a + b, r)
  {
    ConcatAssociates(a, b, PathsFrom(alnum, code, r));
  }

  lemma FindsNothing(alnum: char -> bool, code: string, p: nat, q: nat)
    requires p <= q <= |code| && Quiet(alnum, code, p, q)
    ensures Finds(alnum, code, p, [], q)
  {
    QuietSkips(alnum, code, p, q);
  }

  lemma FindsOne(alnum: char -> bool, code: string, p: nat)
    requires Table(alnum) && StartsPath(alnum, code, p)
    ensures Finds(alnum, code, p, PathsAt(alnum, code[p + |CRATE|..]), p + |CRATE|)
  {
    OneCrate(alnum, code, p);
  }

  lemma CratePlaced(code: string, before: string, text: string, rest: string)
    requires code == before + (CRATE + (text + rest))
    ensures At(code, |before|, CRATE)
    ensures code[|before| + |CRATE|..] == text + rest
    ensures At(code, |before| + |CRATE|, text)
    ensures code[|before| + |CRATE| + |text|..] == rest
    ensures |before| + |CRATE| + |text| == |before + CRATE + text| <= |code|
  {
    assert code[|before|..] == CRATE + (text + rest);
  }

  lemma FindsImportAt(alnum: char -> bool, code: string, p: nat, i: Import, rest: string)
    requires Table(alnum) && ImportOk(alnum, i) && StartsPath(alnum, code, p)
    requires code[p + |CRATE|..] == ImportText(i) + rest
    requires i.Single? ==> Ends(alnum, rest)
    ensures Finds(alnum, code, p, Expanded(i), p + |CRATE|)
  {
    FindsOne(alnum, code, p);
    PathsOfImport(alnum, i, rest);
  }

  lemma FindsNoMore(alnum: char -> bool, code: string, p: nat, found: seq<seq<string>>, q: nat, r: nat)
    requires Finds(alnum, code, p, found, q)
    requires q <= r <= |code| && Quiet(alnum, code, q, r)
    ensures Finds(alnum, code, p, found, r)
  {
    QuietSkips(alnum, code, q, r);
  }

  lemma LastOfBefore(code: string, before: string, rest: string)
    requires code == before + rest
    ensures before != "" ==> code[|before| - 1] == before[|before| - 1]
  {
  }

  lemma FindsImport(alnum: char -> bool, code: string, before: string, i: Import, rest: string, next: nat)
    requires Table(alnum) && ImportOk(alnum, i) && code == before + (CRATE + (ImportText(i) + rest))
    requires before == "" || !IsWordChar(alnum, before[|before| - 1])
    requires i.Single? ==> Ends(alnum, rest)
    requires next == |before| + |CRATE| + |ImportText(i)|
    ensures Finds(alnum, code, |before|, Expanded(i), next)
  {
    var q := |before| + |CRATE|;
    CratePlaced(code, before, ImportText(i), rest);
    LastOfBefore(code, before, CRATE + (ImportText(i) + rest));
    FindsImportAt(alnum, code, |before|, i, rest);
    QuietImport(alnum, code, q, i);
    FindsNoMore(alnum, code, |before|, Expanded(i), q, next);
  }

  lemma Regroup(a: string, b: string, c: string, d: string, e: string, f: string)
    ensures a + (b + (c + (d + e))) + f == a + b + (c + (d + (e + f)))
    ensures a + b + (c + (d + (e + f))) == a + b + c + d + e + f
  {
    var g := e + f;
    assert b + (c + (d + e)) + f == b + (c + (d + g));
    assert a + (b + (c + (d + g))) == a + b + (c + (d + g));
    assert a + b + (c + (d + g)) == a + b + c + d + g;
    assert a + b + c + d + g == a + b + c + d + e + f;
    calc {
      a + (b + (c + (d + e))) + f;
      a + (b + (c + (d + e)) + f);
      a + (b + (c + (d + g)));
    }
  }

  lemma OnePieceMore(before: string, pieces: seq<Piece>, last: string)
    requires pieces != []
    ensures var filler, text := pieces[0].filler, ImportText(pieces[0].imported);
            before + Render(pieces) + last
            == before + filler + (CRATE + (text + (Render(pieces[1..]) + last)))
            == (before + filler + CRATE + text) + Render(pieces[1..]) + last
  {
    Regroup(before, pieces[0].filler, CRATE, ImportText(pieces[0].imported), Render(pieces[1..]), last);
  }

  /** The paths of the first piece, up to where the next one begins. */
  lemma ExtractsPiece(alnum: char -> bool, code: string, before: string, pieces: seq<Piece>, afterSingle: bool,
      last: string, here: string, next: string)
    requires Table(alnum) && pieces != [] && PiecesOk(alnum, before, afterSingle, pieces, last)
    requires code == before + Render(pieces) + last
    requires here == before + pieces[0].filler && next == here + CRATE + ImportText(pieces[0].imported)
    ensures Finds(alnum, code, |before|, Expanded(pieces[0].imported), |next|)
    ensures |next| <= |code| && code == next + Render(pieces[1..]) + last
    ensures PiecesOk(alnum, next, pieces[0].imported.Single?, pieces[1..], last)
  {
    hide Finds, Quiet, ImportText, Expanded, Filler, Render;
    var filler, i := pieces[0].filler, pieces[0].imported;
    var rest := Render(pieces[1..]) + last;
    OnePieceMore(before, pieces, last);
    if i.Single? {
      AfterSinglePath(alnum, here + CRATE, i);
      RenderStartsWell(alnum, next, true, pieces[1..], last);
    }
    CratePlaced(code, here, ImportText(i), rest);
    FindsImport(alnum, code, here, i, rest, |next|);
    FillerIsQuiet(alnum, code, before, filler, CRATE + (ImportText(i) + rest));
    FindsNothing(alnum, code, |before|, |here|);
    FindsThen(alnum, code, |before|, [], |here|, Expanded(i), |next|);
    assert [] + Expanded(i) == Expanded(i);
  }

  lemma {:induction false} ExtractsPieces(alnum: char -> bool, code: string, before: string, afterSingle: bool,
      pieces: seq<Piece>, last: string)
    requires Table(alnum) && PiecesOk(alnum, before, afterSingle, pieces, last)
    requires code == before + Render(pieces) + last
    ensures Finds(alnum, code, |before|, AllPaths(pieces), |code|)
    decreases |pieces|
  {
    hide Finds, Quiet, ImportText, Expanded, Filler;
    if pieces == [] {
      assert code == before + last + "";
      FillerIsQuiet(alnum, code, before, last, "");
      FindsNothing(alnum, code, |before|, |code|);
    } else {
      hide Render, PiecesOk;
      var here := before + pieces[0].filler;
      var next := here + CRATE + ImportText(pieces[0].imported);
      ExtractsPiece(alnum, code, before, pieces, afterSingle, last, here, next);
      ExtractsPieces(alnum, code, next, pieces[0].imported.Single?, pieces[1..], last);
      FindsThen(alnum, code, |before|, Expanded(pieces[0].imported), |next|, AllPaths(pieces[1..]), |code|);
    }
  }

  lemma AfterSinglePath(alnum: char -> bool, before: string, i: Import)
    requires Table(alnum) && i.Single? && ImportOk(alnum, i)
    ensures var text := before + ImportText(i); text != "" && IsWordChar(alnum, text[|text| - 1])
  {
    PathTextTrimmed(alnum, i.path);
  }

  lemma FindsAll(alnum: char -> bool, code: string, found: seq<seq<string>>)
    requires Finds(alnum, code, 0, found, |code|)
    ensures PathsFrom(alnum, code, 0) == found
  {
    assert found + [] == found;
  }

  /** A word is one segment, whatever letters, digits and underscores it is made of,
      before anything that is none of them and does not go on with a path. */
  lemma WordIsOneSegment(alnum: char -> bool, w: string, rest: string)
    requires w != "" && forall k :: 0 <= k < |w| ==> alnum(w[k]) || w[k] == '_'
    requires rest == "" || !(alnum(rest[0]) || rest[0] == '_')
    requires !StartsWith(rest, "::")
    ensures Segments(alnum, w + rest) == Read([w], rest)
  {
    hide IdentLength;
    IdentLengthIs(alnum, w, rest);
    assert (w + rest)[..|w|] == w && (w + rest)[|w|..] == rest;
  }

  /** `crate::` yields a path exactly where no letter, digit or underscore stands before
      it; after `my_`, or after `_` alone, it is the end of another word. */
  lemma CrateYieldsExactly(alnum: char -> bool, before: string, w: string, rest: string)
    requires Table(alnum)
    requires w != "" && forall k :: 0 <= k < |w| ==> alnum(w[k]) || w[k] == '_'
    requires rest == "" || !(alnum(rest[0]) || rest[0] == '_')
    requires !StartsWith(rest, "::")
    ensures var code := before + "crate::" + (w + rest);
            PathsFrom(alnum, code, |before|)
            == (if before == "" || !(alnum(before[|before| - 1]) || before[|before| - 1] == '_') then [[w]] else [])
               + PathsFrom(alnum, code, |before| + 7)
  {
    hide PathsFrom, Segments;
    var code := before + "crate::" + (w + rest);
    assert code[|before|..|before| + 7] == "crate::" && code[|before| + 7..] == w + rest;
    OneCrate(alnum, code, |before|);
    WordIsOneSegment(alnum, w, rest);
    assert |rest| >= 3 ==> rest[..3][..2] == rest[..2];
    assert "::{"[..2] == "::";
  }

  /** Extraction inverts printing: from imports written between other code the
      paths come back in order, each group opened, and nothing else is found. */
  lemma ExtractionInvertsPrinting(alnum: char -> bool, pieces: seq<Piece>, last: string)
    requires Table(alnum) && PiecesOk(alnum, "", false, pieces, last)
    ensures PathsFrom(alnum, Render(pieces) + last, 0) == AllPaths(pieces)
  {
    hide Finds, Quiet, PathsFrom, Render, AllPaths, PiecesOk;
    var code := Render(pieces) + last;
    assert code == "" + Render(pieces) + last;
    ExtractsPieces(alnum, code, "", false, pieces, last);
    FindsAll(alnum, code, AllPaths(pieces));
  }

  /** A group right after `crate::` is not opened: one empty path stands for it. */
  lemma GroupWithoutPrefix(alnum: char -> bool, group: string)
    requires Table(alnum)
    ensures PathsAt(alnum, "{" + group) == [[]]
  {
    var text := "{" + group;
    assert IsAscii('{') && text[0] == '{';
    assert |text| >= 3 ==> text[..3][0] == '{';
  }
}
