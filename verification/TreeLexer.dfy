/** `code_only` of src/tree.rs: Rust source with its comments, strings and
    character literals blanked.

    The lexer is a loop over an index. `CodeFrom` is the function it computes;
    the meaning of that function is given over a grammar of tokens, in which a
    source text is the rendering of a token sequence and the lexer keeps the
    plain characters and nothing of any comment or literal.

    `alnum` stands for Unicode's alphanumeric table (`char::is_alphanumeric`);
    everything here holds whatever the table is.
 */
module TreeLexer {
  import opened Text

  // ---------- the scans, each the value of one inner loop ----------

  predicate AfterIdentifier(alnum: char -> bool, s: string, i: nat)
    requires i <= |s|
  {
    i > 0 && (alnum(s[i - 1]) || s[i - 1] == '_')
  }

  function LineEnd(s: string, i: nat): (j: nat)
    requires i <= |s|
    ensures i <= j <= |s|
    decreases |s| - i
  {
    if i < |s| && s[i] != '\n' then LineEnd(s, i + 1) else i
  }

  predicate ClosesComment(s: string, i: nat) {
    i + 1 < |s| && s[i] == '*' && s[i + 1] == '/'
  }

  function CommentEnd(s: string, i: nat): (j: nat)
    ensures i <= j
    decreases |s| - i
  {
    if i + 1 < |s| && !ClosesComment(s, i) then CommentEnd(s, i + 1) else i
  }

  function HashesEnd(s: string, i: nat): (j: nat)
    requires i <= |s|
    ensures i <= j <= |s|
    ensures forall k :: i <= k < j ==> s[k] == '#'
    ensures j < |s| ==> s[j] != '#'
    decreases |s| - i
  {
    if i < |s| && s[i] == '#' then HashesEnd(s, i + 1) else i
  }

  /** A quote at `i` with `hashes` hashes after it. */
  predicate ClosesRaw(s: string, i: nat, hashes: nat) {
    i < |s| && s[i] == '"' && i + hashes < |s| && forall k :: i < k <= i + hashes ==> s[k] == '#'
  }

  function RawEnd(s: string, i: nat, hashes: nat): (j: nat)
    ensures i <= j
    decreases |s| - i
  {
    if i < |s| && !ClosesRaw(s, i, hashes) then RawEnd(s, i + 1, hashes) else i
  }

  function StringEnd(s: string, i: nat): (j: nat)
    ensures i <= j
    decreases |s| - i
  {
    if i < |s| && s[i] != '"' then StringEnd(s, i + if s[i] == '\\' then 2 else 1) else i
  }

  function QuoteEnd(s: string, i: nat): (j: nat)
    ensures i <= j
    decreases |s| - i
  {
    if i < |s| && s[i] != '\'' then QuoteEnd(s, i + 1) else i
  }

  // ---------- one turn of the outer loop ----------

  /** What one turn pushes, and where it leaves the index. */
  datatype Turn = Turn(pushed: string, next: nat)

  function Step(alnum: char -> bool, s: string, i: nat): (t: Turn)
    requires i < |s|
    ensures i < t.next
  {
    var c := s[i];
    if c == '/' && i + 1 < |s| && s[i + 1] == '/' then
      assert LineEnd(s, i) == LineEnd(s, i + 1);
      Turn("", LineEnd(s, i))
    else if c == '/' && i + 1 < |s| && s[i + 1] == '*' then
      Turn("", CommentEnd(s, i + 2) + 2)
    else if c == 'r' && !AfterIdentifier(alnum, s, i) && i + 1 < |s| && (s[i + 1] == '"' || s[i + 1] == '#') then
      var j := HashesEnd(s, i + 1);
      var hashes := j - (i + 1);
      if j < |s| && s[j] == '"' then
        Turn("\"\"", RawEnd(s, j + 1, hashes) + 1 + hashes)
      else
        Turn("r", i + 1)
    else if c == '"' then
      Turn("\"\"", StringEnd(s, i + 1) + 1)
    else if c == '\'' && i + 2 < |s| && s[i + 2] == '\'' then
      Turn("", i + 3)
    else if c == '\'' && i + 1 < |s| && s[i + 1] == '\\' then
      Turn("", QuoteEnd(s, i + 2) + 1)
    else
      Turn([c], i + 1)
  }

  function CodeFrom(alnum: char -> bool, s: string, i: nat): string
    decreases |s| - i
  {
    if i >= |s| then "" else
      var turn := Step(alnum, s, i);
      turn.pushed + CodeFrom(alnum, s, turn.next)
  }

  // ---------- the loops ----------

  method SkipLine(s: string, start: nat) returns (i: nat)
    requires start <= |s|
    ensures i == LineEnd(s, start)
  {
    i := start;
    while i < |s| && s[i] != '\n'
      invariant i <= |s| && LineEnd(s, i) == LineEnd(s, start)
    {
      i := i + 1;
    }
  }

  method SkipBlockComment(s: string, start: nat) returns (i: nat)
    ensures i == CommentEnd(s, start)
  {
    i := start;
    while i + 1 < |s| && !(s[i] == '*' && s[i + 1] == '/')
      invariant CommentEnd(s, i) == CommentEnd(s, start)
    {
      i := i + 1;
    }
  }

  method CountHashes(s: string, start: nat) returns (hashes: nat)
    requires start <= |s|
    ensures start + hashes == HashesEnd(s, start)
  {
    hashes := 0;
    while start + hashes < |s| && s[start + hashes] == '#'
      invariant start + hashes <= |s| && HashesEnd(s, start + hashes) == HashesEnd(s, start)
    {
      hashes := hashes + 1;
    }
  }

  method SkipRawString(s: string, start: nat, hashes: nat) returns (j: nat)
    ensures j == RawEnd(s, start, hashes)
  {
    j := start;
    while j < |s| && !ClosesRaw(s, j, hashes)
      invariant RawEnd(s, j, hashes) == RawEnd(s, start, hashes)
    {
      j := j + 1;
    }
  }

  method SkipString(s: string, start: nat) returns (i: nat)
    ensures i == StringEnd(s, start)
  {
    i := start;
    while i < |s| && s[i] != '"'
      invariant StringEnd(s, i) == StringEnd(s, start)
    {
      i := i + if s[i] == '\\' then 2 else 1;
    }
  }

  method SkipCharacter(s: string, start: nat) returns (i: nat)
    ensures i == QuoteEnd(s, start)
  {
    i := start;
    while i < |s| && s[i] != '\''
      invariant QuoteEnd(s, i) == QuoteEnd(s, start)
    {
      i := i + 1;
    }
  }

  /** The body of the loop: what it pushes, and the index it goes on from. */
  method Advance(alnum: char -> bool, source: string, i: nat) returns (turn: Turn)
    requires i < |source|
    ensures turn == Step(alnum, source, i)
  {
    var c := source[i];
    var next := if i + 1 < |source| then Some(source[i + 1]) else None;
    var afterIdentifier := i > 0 && (alnum(source[i - 1]) || source[i - 1] == '_');
    if c == '/' && next == Some('/') {
      var end := SkipLine(source, i);
      return Turn("", end);
    } else if c == '/' && next == Some('*') {
      var end := SkipBlockComment(source, i + 2);
      return Turn("", end + 2);
    } else if c == 'r' && !afterIdentifier && (next == Some('"') || next == Some('#')) {
      var hashes := CountHashes(source, i + 1);
      var j := i + 1 + hashes;
      if !(j < |source| && source[j] == '"') {
        return Turn([c], i + 1);
      }
      j := SkipRawString(source, j + 1, hashes);
      return Turn("\"\"", j + 1 + hashes);
    } else if c == '"' {
      var end := SkipString(source, i + 1);
      return Turn("\"\"", end + 1);
    } else if c == '\'' && i + 2 < |source| && source[i + 2] == '\'' {
      return Turn("", i + 3);
    } else if c == '\'' && next == Some('\\') {
      var end := SkipCharacter(source, i + 2);
      return Turn("", end + 1);
    } else {
      return Turn([c], i + 1);
    }
  }

  /** `code_only`: terminates on every source, stays in bounds, and returns
      `CodeFrom` of the whole. */
  method CodeOnly(alnum: char -> bool, source: string) returns (out: string)
    ensures out == CodeFrom(alnum, source, 0)
  {
    out := "";
    var i := 0;
    while i < |source|
      invariant out + CodeFrom(alnum, source, i) == CodeFrom(alnum, source, 0)
    {
      var turn := Advance(alnum, source, i);
      assert out + CodeFrom(alnum, source, i) == out + turn.pushed + CodeFrom(alnum, source, turn.next);
      out := out + turn.pushed;
      i := turn.next;
    }
  }

  // ---------- the grammar ----------

  /** One character of an ordinary string literal. */
  datatype StrChar = Literal(c: char) | Escaped(c: char)

  datatype Token =
    | Plain(c: char)
    | LineComment(body: string)
    | BlockComment(body: string)
    | Str(chars: seq<StrChar>)
    | RawStr(hashes: nat, body: string)
    | CharLit(c: char)
    | EscapedChar(body: string)

  function StrText(chars: seq<StrChar>): string {
    if chars == [] then ""
    else (match chars[0] case Literal(c) => [c] case Escaped(c) => ['\\', c]) + StrText(chars[1..])
  }

  predicate StrOk(chars: seq<StrChar>) {
    forall k :: 0 <= k < |chars| && chars[k].Literal? ==> chars[k].c != '"' && chars[k].c != '\\'
  }

  function Hashes(n: nat): (s: string)
    ensures |s| == n && forall k :: 0 <= k < n ==> s[k] == '#'
  {
    seq(n, _ => '#')
  }

  /** How a token is spelt. */
  function Spelling(t: Token): string {
    match t
    case Plain(c) => [c]
    case LineComment(body) => "//" + body
    case BlockComment(body) => "/*" + body + "*/"
    case Str(chars) => "\"" + StrText(chars) + "\""
    case RawStr(hashes, body) => "r" + Hashes(hashes) + "\"" + body + "\"" + Hashes(hashes)
    case CharLit(c) => ['\'', c, '\'']
    case EscapedChar(body) => "'\\" + body + "'"
  }

  /** What is left of it. */
  function Kept(t: Token): string {
    match t
    case Plain(c) => [c]
    case Str(_) => "\"\""
    case RawStr(_, _) => "\"\""
    case _ => ""
  }

  /** Whether an identifier may go on after the text. */
  predicate AfterWord(alnum: char -> bool, before: string) {
    before != "" && (alnum(before[|before| - 1]) || before[|before| - 1] == '_')
  }

  /** Nothing in the body is spelt as the closing is. */
  predicate Unclosed(body: string, closing: string) {
    forall k :: 0 <= k < |body| ==> !At(body, k, closing)
  }

  function RawClosing(hashes: nat): string { "\"" + Hashes(hashes) }

  /** Whether hashes and then a quote come first. */
  predicate OpensRaw(after: string) {
    var h := HashesEnd(after, 0);
    h < |after| && after[h] == '"'
  }

  /** A character that begins no comment and no literal, given what stands
      before and after it. */
  predicate PlainHere(alnum: char -> bool, before: string, c: char, after: string) {
    && c != '"'
    && !(c == '/' && after != "" && (after[0] == '/' || after[0] == '*'))
    && !(c == 'r' && !AfterWord(alnum, before) && OpensRaw(after))
    && !(c == '\'' && |after| >= 2 && after[1] == '\'')
    && !(c == '\'' && |after| >= 1 && after[0] == '\\')
  }

  /** Whether a token may stand between two texts. */
  predicate Stands(alnum: char -> bool, before: string, t: Token, after: string) {
    match t
    case Plain(c) => PlainHere(alnum, before, c, after)
    case LineComment(body) => '\n' !in body && (after == "" || after[0] == '\n')
    case BlockComment(body) => Unclosed(body, "*/")
    case Str(chars) => StrOk(chars)
    case RawStr(hashes, body) => !AfterWord(alnum, before) && Unclosed(body, RawClosing(hashes))
    case CharLit(_) => true
    case EscapedChar(body) => body != "" && '\'' !in body
  }

  function Render(ts: seq<Token>): string {
    if ts == [] then "" else Spelling(ts[0]) + Render(ts[1..])
  }

  function Blanked(ts: seq<Token>): string {
    if ts == [] then "" else Kept(ts[0]) + Blanked(ts[1..])
  }

  /** Tokens that may follow `before` and be followed by `after`. */
  predicate WellFormed(alnum: char -> bool, before: string, ts: seq<Token>, after: string)
    decreases |ts|
  {
    ts == [] ||
    (Stands(alnum, before, ts[0], Render(ts[1..]) + after)
     && WellFormed(alnum, before + Spelling(ts[0]), ts[1..], after))
  }

  // ---------- where each scan stops ----------

  lemma ClosesCommentIs(s: string, k: nat)
    ensures ClosesComment(s, k) <==> At(s, k, "*/")
  {
    if k + 2 <= |s| { assert s[k..k + 2] == [s[k], s[k + 1]]; }
  }

  lemma ClosesRawIs(s: string, k: nat, hashes: nat)
    ensures ClosesRaw(s, k, hashes) <==> At(s, k, RawClosing(hashes))
  {
    var closing := RawClosing(hashes);
    if k + |closing| <= |s| {
      var part := s[k..k + |closing|];
      assert part[0] == s[k] && forall m :: 0 < m <= hashes ==> part[m] == s[k + m] && closing[m] == '#';
      if ClosesRaw(s, k, hashes) { assert part == closing; }
      if At(s, k, closing) {
        forall m | k < m <= k + hashes
          ensures s[m] == '#'
        {
          assert s[m] == part[m - k];
        }
      }
    }
  }

  lemma UnclosedComment(body: string)
    ensures Unclosed(body, "*/") <==> forall k :: 0 <= k < |body| ==> !ClosesComment(body, k)
  {
    hide ClosesComment, Text.At;
    forall k | 0 <= k < |body|
      ensures ClosesComment(body, k) <==> At(body, k, "*/")
    {
      ClosesCommentIs(body, k);
    }
  }

  lemma UnclosedRaw(body: string, hashes: nat)
    ensures Unclosed(body, RawClosing(hashes)) <==> forall k :: 0 <= k < |body| ==> !ClosesRaw(body, k, hashes)
  {
    hide ClosesRaw, Text.At, RawClosing;
    forall k | 0 <= k < |body|
      ensures ClosesRaw(body, k, hashes) <==> At(body, k, RawClosing(hashes))
    {
      ClosesRawIs(body, k, hashes);
    }
  }

  lemma {:induction false} LineEndIs(s: string, i: nat, j: nat)
    requires i <= j <= |s|
    requires forall k :: i <= k < j ==> s[k] != '\n'
    requires j < |s| ==> s[j] == '\n'
    ensures LineEnd(s, i) == j
    decreases j - i
  {
    if i < j { LineEndIs(s, i + 1, j); }
  }

  lemma {:induction false} CommentEndIs(s: string, i: nat, j: nat)
    requires i <= j
    requires i == j || j < |s|
    requires forall k :: i <= k < j ==> !ClosesComment(s, k)
    requires ClosesComment(s, j) || j + 1 >= |s|
    ensures CommentEnd(s, i) == j
    decreases j - i
  {
    if i < j { CommentEndIs(s, i + 1, j); }
  }

  lemma {:induction false} HashesEndIs(s: string, i: nat, j: nat)
    requires i <= j <= |s|
    requires forall k :: i <= k < j ==> s[k] == '#'
    requires j < |s| ==> s[j] != '#'
    ensures HashesEnd(s, i) == j
    decreases j - i
  {
    if i < j { HashesEndIs(s, i + 1, j); }
  }

  lemma {:induction false} RawEndIs(s: string, i: nat, hashes: nat, j: nat)
    requires i <= j <= |s|
    requires forall k :: i <= k < j ==> !ClosesRaw(s, k, hashes)
    requires ClosesRaw(s, j, hashes) || j == |s|
    ensures RawEnd(s, i, hashes) == j
    decreases j - i
  {
    if i < j { RawEndIs(s, i + 1, hashes, j); }
  }

  lemma {:induction false} QuoteEndIs(s: string, i: nat, j: nat)
    requires i <= j <= |s|
    requires forall k :: i <= k < j ==> s[k] != '\''
    requires j < |s| ==> s[j] == '\''
    ensures QuoteEnd(s, i) == j
    decreases j - i
  {
    if i < j { QuoteEndIs(s, i + 1, j); }
  }

  lemma {:induction false} StringEndIs(s: string, i: nat, chars: seq<StrChar>)
    requires StrOk(chars)
    requires At(s, i, StrText(chars) + "\"")
    ensures StringEnd(s, i) == i + |StrText(chars)|
    decreases |chars|
  {
    var text := StrText(chars) + "\"";
    assert forall k :: 0 <= k < |text| ==> s[i + k] == text[k];
    if chars != [] {
      var first := if chars[0].Literal? then 1 else 2;
      assert text[first..] == StrText(chars[1..]) + "\"";
      assert s[i + first..i + |text|] == text[first..];
      assert s[i] == text[0];
      StringEndIs(s, i + first, chars[1..]);
    }
  }

  // ---------- one token is one turn ----------

  lemma StepOfLineComment(alnum: char -> bool, before: string, body: string, after: string)
    requires Stands(alnum, before, LineComment(body), after)
    ensures var s := before + Spelling(LineComment(body)) + after;
            Step(alnum, s, |before|) == Turn("", |before| + |Spelling(LineComment(body))|)
  {
    var s := before + ("//" + body) + after;
    var i := |before|;
    assert s[i] == '/' && s[i + 1] == '/';
    assert forall k :: 0 <= k < |body| ==> s[i + 2 + k] == body[k];
    assert forall k :: i + 2 <= k < i + 2 + |body| ==> s[k] == body[k - (i + 2)];
    LineEndIs(s, i, i + 2 + |body|);
  }

  lemma StepOfBlockComment(alnum: char -> bool, before: string, body: string, after: string)
    requires Stands(alnum, before, BlockComment(body), after)
    ensures var s := before + Spelling(BlockComment(body)) + after;
            Step(alnum, s, |before|) == Turn("", |before| + |Spelling(BlockComment(body))|)
  {
    hide Unclosed;
    UnclosedComment(body);
    var s := before + ("/*" + body + "*/") + after;
    var i := |before| + 2;
    assert s[i - 2] == '/' && s[i - 1] == '*';
    assert forall k :: i <= k < i + |body| ==> s[k] == body[k - i];
    assert s[i + |body|] == '*' && s[i + |body| + 1] == '/';
    forall k | i <= k < i + |body|
      ensures !ClosesComment(s, k)
    {
      assert !ClosesComment(body, k - i);
    }
    CommentEndIs(s, i, i + |body|);
  }

  lemma StepOfStr(alnum: char -> bool, before: string, chars: seq<StrChar>, after: string)
    requires Stands(alnum, before, Str(chars), after)
    ensures var s := before + Spelling(Str(chars)) + after;
            Step(alnum, s, |before|) == Turn("\"\"", |before| + |Spelling(Str(chars))|)
  {
    var text := StrText(chars);
    var s := before + ("\"" + text + "\"") + after;
    assert s[|before|] == '"';
    assert s[|before| + 1..|before| + 1 + |text| + 1] == text + "\"";
    StringEndIs(s, |before| + 1, chars);
  }

  lemma StepOfRawStr(alnum: char -> bool, before: string, hashes: nat, body: string, after: string)
    requires Stands(alnum, before, RawStr(hashes, body), after)
    ensures var s := before + Spelling(RawStr(hashes, body)) + after;
            Step(alnum, s, |before|) == Turn("\"\"", |before| + |Spelling(RawStr(hashes, body))|)
  {
    hide LineEnd, CommentEnd, HashesEnd, RawEnd, StringEnd, QuoteEnd, Unclosed;
    UnclosedRaw(body, hashes);
    var h := Hashes(hashes);
    var s := before + ("r" + h + "\"" + body + "\"" + h) + after;
    var i := |before|;
    var j := i + 2 + hashes;
    var close := j + |body|;
    assert s[i] == 'r';
    assert AfterIdentifier(alnum, s, i) == AfterWord(alnum, before);
    assert forall k :: i + 1 <= k < i + 1 + hashes ==> s[k] == h[k - (i + 1)];
    assert s[i + 1 + hashes] == '"';
    HashesEndIs(s, i + 1, i + 1 + hashes);
    assert s[i + 1] == '"' || s[i + 1] == '#';
    assert forall k :: j <= k < close ==> s[k] == body[k - j];
    assert s[close] == '"';
    assert forall k :: close < k <= close + hashes ==> s[k] == h[k - (close + 1)];
    assert ClosesRaw(s, close, hashes);
    forall k | j <= k < close
      ensures !ClosesRaw(s, k, hashes)
    {
      NotClosedWithin(s, j, body, hashes, k);
    }
    RawEndIs(s, j, hashes, close);
  }

  lemma NotClosedWithin(s: string, j: nat, body: string, hashes: nat, k: nat)
    requires j + |body| < |s| && s[j + |body|] == '"'
    requires forall m :: j <= m < j + |body| ==> s[m] == body[m - j]
    requires forall m :: 0 <= m < |body| ==> !ClosesRaw(body, m, hashes)
    requires j <= k < j + |body|
    ensures !ClosesRaw(s, k, hashes)
  {
    assert !ClosesRaw(body, k - j, hashes);
    if k + hashes < j + |body| {
      assert forall m :: k - j < m <= k - j + hashes ==> body[m] == s[m + j];
    }
  }

  lemma StepOfEscapedChar(alnum: char -> bool, before: string, body: string, after: string)
    requires Stands(alnum, before, EscapedChar(body), after)
    ensures var s := before + Spelling(EscapedChar(body)) + after;
            Step(alnum, s, |before|) == Turn("", |before| + |Spelling(EscapedChar(body))|)
  {
    var s := before + ("'\\" + body + "'") + after;
    var i := |before| + 2;
    assert s[i - 2] == '\'' && s[i - 1] == '\\';
    assert forall k :: i <= k < i + |body| ==> s[k] == body[k - i];
    assert s[i] == body[0];
    assert s[i + |body|] == '\'';
    QuoteEndIs(s, i, i + |body|);
  }

  lemma StepAtPlain(alnum: char -> bool, s: string, i: nat)
    requires i < |s| && s[i] != '"'
    requires !(s[i] == '/' && i + 1 < |s| && (s[i + 1] == '/' || s[i + 1] == '*'))
    requires s[i] == 'r' && !AfterIdentifier(alnum, s, i) ==>
               HashesEnd(s, i + 1) >= |s| || s[HashesEnd(s, i + 1)] != '"'
    requires !(s[i] == '\'' && i + 2 < |s| && s[i + 2] == '\'')
    requires !(s[i] == '\'' && i + 1 < |s| && s[i + 1] == '\\')
    ensures Step(alnum, s, i) == Turn([s[i]], i + 1)
  {
    hide LineEnd, CommentEnd, HashesEnd, RawEnd, StringEnd, QuoteEnd;
  }

  lemma HashesAfter(before: string, after: string)
    ensures var s, h := before + after, HashesEnd(after, 0);
            HashesEnd(s, |before|) == |before| + h && (h < |after| ==> s[|before| + h] == after[h])
  {
    hide HashesEnd;
    var s, n := before + after, |before|;
    var h := HashesEnd(after, 0);
    assert forall k :: 0 <= k < |after| ==> s[n + k] == after[k];
    assert forall k :: n <= k < n + h ==> s[k] == after[k - n];
    HashesEndIs(s, n, n + h);
  }

  lemma StepOfPlain(alnum: char -> bool, before: string, c: char, after: string)
    requires Stands(alnum, before, Plain(c), after)
    ensures Step(alnum, before + [c] + after, |before|) == Turn([c], |before| + 1)
  {
    hide HashesEnd, Step;
    var s := before + [c] + after;
    var i := |before|;
    assert i + 1 < |s| ==> s[i + 1] == after[0];
    assert i + 2 < |s| ==> s[i + 2] == after[1];
    assert AfterIdentifier(alnum, s, i) == AfterWord(alnum, before);
    HashesAfter(before + [c], after);
    StepAtPlain(alnum, s, i);
  }

  lemma StepOf(alnum: char -> bool, before: string, t: Token, after: string)
    requires Stands(alnum, before, t, after)
    ensures var s := before + Spelling(t) + after;
            Step(alnum, s, |before|) == Turn(Kept(t), |before| + |Spelling(t)|)
  {
    match t
    case Plain(c) => StepOfPlain(alnum, before, c, after);
    case LineComment(body) => StepOfLineComment(alnum, before, body, after);
    case BlockComment(body) => StepOfBlockComment(alnum, before, body, after);
    case Str(chars) => StepOfStr(alnum, before, chars, after);
    case RawStr(hashes, body) => StepOfRawStr(alnum, before, hashes, body, after);
    case CharLit(c) =>
      var s := before + ['\'', c, '\''] + after;
      assert s[|before|] == '\'' && s[|before| + 2] == '\'';
    case EscapedChar(body) => StepOfEscapedChar(alnum, before, body, after);
  }

  // ---------- the main theorem ----------

  /** Lexing from `i` pushes `out` and then goes on from `j`. */
  predicate Lexes(alnum: char -> bool, s: string, i: nat, out: string, j: nat) {
    CodeFrom(alnum, s, i) == out + CodeFrom(alnum, s, j)
  }

  lemma LexesThen(alnum: char -> bool, s: string, i: nat, a: string, j: nat, b: string, k: nat)
    requires Lexes(alnum, s, i, a, j) && Lexes(alnum, s, j, b, k)
    ensures Lexes(alnum, s, i, a + b, k)
  {
    var end := CodeFrom(alnum, s, k);
    assert a + (b + end) == a + b + end;
  }

  lemma LexesOneToken(alnum: char -> bool, s: string, before: string, t: Token, after: string)
    requires Stands(alnum, before, t, after)
    requires s == before + Spelling(t) + after
    ensures Lexes(alnum, s, |before|, Kept(t), |before + Spelling(t)|)
  {
    hide Stands, Spelling, Step;
    StepOf(alnum, before, t, after);
  }

  lemma OneTokenMore(before: string, ts: seq<Token>, after: string)
    requires ts != []
    ensures before + Render(ts) + after == before + Spelling(ts[0]) + (Render(ts[1..]) + after)
    ensures before + Render(ts) + after == (before + Spelling(ts[0])) + Render(ts[1..]) + after
    ensures |before + Render(ts)| == |before + Spelling(ts[0]) + Render(ts[1..])|
  {
    hide Spelling;
    Regroups(before, Spelling(ts[0]), Render(ts[1..]), after);
  }

  lemma Regroups(before: string, first: string, rest: string, after: string)
    ensures before + (first + rest) + after == before + first + (rest + after)
    ensures before + (first + rest) + after == (before + first) + rest + after
  {
    ConcatAssociates(before, first, rest);
    ConcatAssociates(before + first, rest, after);
  }

  /** On a rendering, the lexer returns the plain characters with each string
      as an empty one and every comment and character literal gone; what comes
      after the tokens is lexed as it stands there. */
  lemma {:induction false} LexesTokens(alnum: char -> bool, s: string, before: string, ts: seq<Token>, after: string)
    requires WellFormed(alnum, before, ts, after)
    requires s == before + Render(ts) + after
    ensures Lexes(alnum, s, |before|, Blanked(ts), |before + Render(ts)|)
    decreases |ts|
  {
    if ts == [] {
      assert before + Render(ts) == before;
      assert CodeFrom(alnum, s, |before|) == "" + CodeFrom(alnum, s, |before|);
    } else {
      OneTokenMore(before, ts, after);
      LexesOneToken(alnum, s, before, ts[0], Render(ts[1..]) + after);
      LexesTokens(alnum, s, before + Spelling(ts[0]), ts[1..], after);
      LexesThen(alnum, s, |before|, Kept(ts[0]), |before + Spelling(ts[0])|, Blanked(ts[1..]), |before + Render(ts)|);
    }
  }

  lemma LexerKeepsOnlyCode(alnum: char -> bool, ts: seq<Token>)
    requires WellFormed(alnum, "", ts, "")
    ensures CodeFrom(alnum, Render(ts), 0) == Blanked(ts)
  {
    hide WellFormed, Render, Blanked, Step;
    assert "" + Render(ts) + "" == Render(ts);
    LexesTokens(alnum, Render(ts), "", ts, "");
    assert Blanked(ts) + "" == Blanked(ts);
  }

  // ---------- every source, well formed or not ----------

  /** The characters of the string literal that is open at `i`. */
  function ReadStr(s: string, i: nat): (chars: seq<StrChar>)
    requires StringEnd(s, i) < |s|
    ensures StrOk(chars)
    ensures s[i..StringEnd(s, i)] == StrText(chars)
    decreases |s| - i
  {
    if s[i] == '"' then []
    else if s[i] == '\\' then
      var rest := ReadStr(s, i + 2);
      assert s[i..StringEnd(s, i)] == ['\\', s[i + 1]] + s[i + 2..StringEnd(s, i)];
      [Escaped(s[i + 1])] + rest
    else
      var rest := ReadStr(s, i + 1);
      assert s[i..StringEnd(s, i)] == [s[i]] + s[i + 1..StringEnd(s, i)];
      [Literal(s[i])] + rest
  }

  lemma {:induction false} CommentEndStops(s: string, i: nat)
    ensures var j := CommentEnd(s, i);
            (j + 1 < |s| ==> ClosesComment(s, j)) && forall k :: i <= k < j ==> !ClosesComment(s, k)
    decreases |s| - i
  {
    if i + 1 < |s| && !ClosesComment(s, i) { CommentEndStops(s, i + 1); }
  }

  lemma {:induction false} LineEndStops(s: string, i: nat)
    requires i <= |s|
    ensures var j := LineEnd(s, i);
            (j < |s| ==> s[j] == '\n') && forall k :: i <= k < j ==> s[k] != '\n'
    decreases |s| - i
  {
    if i < |s| && s[i] != '\n' { LineEndStops(s, i + 1); }
  }

  lemma {:induction false} RawEndStops(s: string, i: nat, hashes: nat)
    ensures var j := RawEnd(s, i, hashes);
            (j < |s| ==> ClosesRaw(s, j, hashes)) && forall k :: i <= k < j ==> !ClosesRaw(s, k, hashes)
    decreases |s| - i
  {
    if i < |s| && !ClosesRaw(s, i, hashes) { RawEndStops(s, i + 1, hashes); }
  }

  lemma {:induction false} QuoteEndStops(s: string, i: nat)
    ensures var j := QuoteEnd(s, i);
            (j < |s| ==> s[j] == '\'') && forall k :: i <= k < j && k < |s| ==> s[k] != '\''
    decreases |s| - i
  {
    if i < |s| && s[i] != '\'' { QuoteEndStops(s, i + 1); }
  }

  /** A raw string opens at the start of `text`. */
  predicate RawAt(alnum: char -> bool, before: string, text: string) {
    text != "" && text[0] == 'r' && !AfterWord(alnum, before) && OpensRaw(text[1..])
  }

  function RawHashes(text: string): nat
    requires text != ""
  {
    HashesEnd(text[1..], 0)
  }

  /** The token that `text` begins with, unless it is never closed. */
  function TokenAt(alnum: char -> bool, before: string, text: string): Option<Token>
    requires text != ""
  {
    if StartsWith(text, "//") then Some(LineComment(text[2..LineEnd(text, 2)]))
    else if StartsWith(text, "/*") then
      var j := CommentEnd(text, 2);
      if ClosesComment(text, j) then Some(BlockComment(text[2..j])) else None
    else if RawAt(alnum, before, text) then
      var h := RawHashes(text);
      var j := RawEnd(text, h + 2, h);
      if ClosesRaw(text, j, h) then Some(RawStr(h, text[h + 2..j])) else None
    else if text[0] == '"' then
      if StringEnd(text, 1) < |text| then Some(Str(ReadStr(text, 1))) else None
    else if text[0] == '\'' && |text| > 2 && text[2] == '\'' then Some(CharLit(text[1]))
    else if StartsWith(text, "'\\") then
      var j := QuoteEnd(text, 2);
      if j < |text| then Some(EscapedChar(text[2..j])) else None
    else Some(Plain(text[0]))
  }

  /** Nothing, or one comment or literal that the end of the source cuts off. */
  predicate Unfinished(alnum: char -> bool, before: string, text: string) {
    text == "" || TokenAt(alnum, before, text) == None
  }

  predicate Begins(alnum: char -> bool, before: string, t: Token, text: string) {
    && |Spelling(t)| <= |text|
    && text[..|Spelling(t)|] == Spelling(t)
    && Stands(alnum, before, t, text[|Spelling(t)|..])
  }

  lemma BeginsLineComment(alnum: char -> bool, before: string, text: string)
    requires StartsWith(text, "//")
    ensures Begins(alnum, before, TokenAt(alnum, before, text).value, text)
  {
    LineEndStops(text, 2);
    var j := LineEnd(text, 2);
    assert text[..j] == "//" + text[2..j];
  }

  lemma BeginsBlockComment(alnum: char -> bool, before: string, text: string)
    requires StartsWith(text, "/*") && TokenAt(alnum, before, text).Some?
    ensures Begins(alnum, before, TokenAt(alnum, before, text).value, text)
  {
    CommentEndStops(text, 2);
    var j := CommentEnd(text, 2);
    var body := text[2..j];
    assert text[..j + 2] == "/*" + body + "*/";
    UnclosedComment(body);
    forall k | 0 <= k < |body|
      ensures !ClosesComment(body, k)
    {
      assert !ClosesComment(text, k + 2);
    }
  }

  lemma RawOpening(alnum: char -> bool, before: string, text: string)
    requires RawAt(alnum, before, text)
    ensures var h := RawHashes(text);
            h + 1 < |text| && text[..h + 2] == "r" + Hashes(h) + "\""
  {
    var h := RawHashes(text);
    assert forall k :: 0 <= k < h ==> text[1 + k] == text[1..][k];
    assert text[1 + h] == text[1..][h];
  }

  lemma BeginsRawStr(alnum: char -> bool, before: string, text: string)
    requires RawAt(alnum, before, text) && TokenAt(alnum, before, text).Some?
    ensures Begins(alnum, before, TokenAt(alnum, before, text).value, text)
  {
    hide LineEnd, CommentEnd, HashesEnd, RawEnd, StringEnd, QuoteEnd, ClosesComment, ReadStr;
    RawOpening(alnum, before, text);
    var h := RawHashes(text);
    RawEndStops(text, h + 2, h);
    var j := RawEnd(text, h + 2, h);
    var body := text[h + 2..j];
    var close := text[j..j + 1 + h];
    assert close == "\"" + Hashes(h);
    assert text[..j + 1 + h] == text[..h + 2] + body + close;
    assert text[..j + 1 + h] == "r" + Hashes(h) + "\"" + body + "\"" + Hashes(h);
    NotClosedInPart(text, h + 2, j, h);
    UnclosedRaw(body, h);
  }

  lemma NotClosedInPart(text: string, i: nat, j: nat, h: nat)
    requires i <= j <= |text| && forall k :: i <= k < j ==> !ClosesRaw(text, k, h)
    ensures forall k :: 0 <= k < j - i ==> !ClosesRaw(text[i..j], k, h)
  {
    var body := text[i..j];
    forall k | 0 <= k < |body|
      ensures !ClosesRaw(body, k, h)
    {
      assert !ClosesRaw(text, k + i, h);
      if k + h < |body| {
        assert forall m :: k < m <= k + h ==> body[m] == text[m + i];
        assert forall m :: k + i < m <= k + i + h ==> text[m] == body[m - i];
      }
    }
  }

  lemma Between(text: string, j: nat)
    requires 0 < j < |text| && text[0] == text[j]
    ensures text[..j + 1] == [text[0]] + text[1..j] + [text[0]]
  {
  }

  lemma BeginsStrOf(alnum: char -> bool, before: string, text: string, j: nat, chars: seq<StrChar>)
    requires 0 < j < |text| && text[0] == '"' && text[j] == '"'
    requires StrOk(chars) && StrText(chars) == text[1..j]
    ensures Begins(alnum, before, Str(chars), text)
  {
    hide StrText, StrOk;
    Between(text, j);
    assert Spelling(Str(chars)) == ['"'] + text[1..j] + ['"'];
  }

  lemma BeginsStr(alnum: char -> bool, before: string, text: string)
    requires text != "" && text[0] == '"' && StringEnd(text, 1) < |text|
    ensures Begins(alnum, before, Str(ReadStr(text, 1)), text)
  {
    hide ReadStr, StringEnd, StrText, StrOk, Begins;
    StringEndStops(text, 1);
    BeginsStrOf(alnum, before, text, StringEnd(text, 1), ReadStr(text, 1));
  }

  lemma {:induction false} StringEndStops(s: string, i: nat)
    ensures StringEnd(s, i) < |s| ==> s[StringEnd(s, i)] == '"'
    decreases |s| - i
  {
    if i < |s| && s[i] != '"' { StringEndStops(s, i + if s[i] == '\\' then 2 else 1); }
  }

  lemma QuoteFree(text: string, j: nat)
    requires 2 <= j == QuoteEnd(text, 2) < |text|
    ensures '\'' !in text[2..j] && text[j] == '\''
  {
    QuoteEndStops(text, 2);
  }

  lemma EscapedCharText(text: string, j: nat)
    requires StartsWith(text, "'\\") && 2 <= j < |text| && text[j] == '\''
    ensures text[..j + 1] == "'\\" + text[2..j] + "'"
  {
    assert text[..j + 1] == text[..2] + text[2..j] + [text[j]];
  }

  lemma BeginsEscapedChar(alnum: char -> bool, before: string, text: string)
    requires StartsWith(text, "'\\") && QuoteEnd(text, 2) < |text| && text[2] != '\''
    ensures Begins(alnum, before, EscapedChar(text[2..QuoteEnd(text, 2)]), text)
  {
    var j := QuoteEnd(text, 2);
    QuoteFree(text, j);
    EscapedCharText(text, j);
  }

  lemma TokenAtBegins(alnum: char -> bool, before: string, text: string)
    requires text != "" && TokenAt(alnum, before, text).Some?
    ensures Begins(alnum, before, TokenAt(alnum, before, text).value, text)
  {
    if StartsWith(text, "//") {
      BeginsLineComment(alnum, before, text);
    } else if StartsWith(text, "/*") {
      BeginsBlockComment(alnum, before, text);
    } else if RawAt(alnum, before, text) {
      BeginsRawStr(alnum, before, text);
    } else if text[0] == '"' {
      BeginsStr(alnum, before, text);
    } else if text[0] == '\'' && |text| > 2 && text[2] == '\'' {
      assert text[..3] == ['\'', text[1], '\''];
    } else if StartsWith(text, "'\\") {
      BeginsEscapedChar(alnum, before, text);
    } else {
      assert text[0] == '/' && |text| > 1 ==> text[..2] == [text[0], text[1]];
      assert text[0] == '\'' && |text| > 1 ==> text[..2] == [text[0], text[1]];
    }
  }

  /** What is pushed for the part that is cut off. */
  function CutOff(text: string): string {
    if text != "" && (text[0] == '"' || text[0] == 'r') then "\"\"" else ""
  }

  lemma CutOffIsLast(alnum: char -> bool, s: string, before: string, text: string)
    requires s == before + text
    requires Unfinished(alnum, before, text)
    ensures CodeFrom(alnum, s, |before|) == CutOff(text)
  {
    if text != "" {
      StepOfCutOff(alnum, s, before, text);
      assert CutOff(text) + "" == CutOff(text);
    }
  }

  lemma {:induction false} ShiftCommentEnd(before: string, text: string, i: nat)
    ensures CommentEnd(before + text, |before| + i) == |before| + CommentEnd(text, i)
    decreases |text| - i
  {
    if i + 1 < |text| {
      assert (before + text)[|before| + i] == text[i] && (before + text)[|before| + i + 1] == text[i + 1];
      if !ClosesComment(text, i) { ShiftCommentEnd(before, text, i + 1); }
    }
  }

  lemma {:induction false} ShiftStringEnd(before: string, text: string, i: nat)
    ensures StringEnd(before + text, |before| + i) == |before| + StringEnd(text, i)
    decreases |text| - i
  {
    if i < |text| {
      assert (before + text)[|before| + i] == text[i];
      if text[i] != '"' { ShiftStringEnd(before, text, i + if text[i] == '\\' then 2 else 1); }
    }
  }

  lemma {:induction false} ShiftQuoteEnd(before: string, text: string, i: nat)
    ensures QuoteEnd(before + text, |before| + i) == |before| + QuoteEnd(text, i)
    decreases |text| - i
  {
    if i < |text| {
      assert (before + text)[|before| + i] == text[i];
      if text[i] != '\'' { ShiftQuoteEnd(before, text, i + 1); }
    }
  }

  lemma ShiftClosesRaw(before: string, text: string, i: nat, hashes: nat)
    ensures ClosesRaw(before + text, |before| + i, hashes) == ClosesRaw(text, i, hashes)
  {
    var s := before + text;
    var n := |before|;
    assert i < |text| ==> s[n + i] == text[i];
    if i + hashes < |text| {
      assert forall k :: i < k <= i + hashes ==> text[k] == s[k + n];
      assert forall k :: n + i < k <= n + i + hashes ==> s[k] == text[k - n];
    }
  }

  lemma {:induction false} ShiftRawEnd(before: string, text: string, i: nat, hashes: nat)
    ensures RawEnd(before + text, |before| + i, hashes) == |before| + RawEnd(text, i, hashes)
    decreases |text| - i
  {
    ShiftClosesRaw(before, text, i, hashes);
    if i < |text| && !ClosesRaw(text, i, hashes) { ShiftRawEnd(before, text, i + 1, hashes); }
  }

  lemma StepOfCutOffComment(alnum: char -> bool, s: string, before: string, text: string)
    requires s == before + text && StartsWith(text, "/*")
    requires TokenAt(alnum, before, text) == None
    ensures var turn := Step(alnum, s, |before|);
            turn.pushed == "" && turn.next >= |s|
  {
    assert s[|before|] == '/' && s[|before| + 1] == '*';
    CommentEndStops(text, 2);
    ShiftCommentEnd(before, text, 2);
  }

  lemma StepOfCutOffRaw(alnum: char -> bool, s: string, before: string, text: string)
    requires s == before + text && RawAt(alnum, before, text)
    requires TokenAt(alnum, before, text) == None
    ensures var turn := Step(alnum, s, |before|);
            turn.pushed == "\"\"" && turn.next >= |s|
  {
    hide LineEnd, CommentEnd, HashesEnd, StringEnd, QuoteEnd, RawEnd, ReadStr, ClosesComment;
    var n := |before|;
    RawOpening(alnum, before, text);
    var h := RawHashes(text);
    var rest := text[h + 2..];
    assert text == text[..h + 2] + rest;
    assert s == before + ("r" + Hashes(h) + "\"" + rest);
    assert s[n] == 'r' && s[n + 1 + h] == '"';
    assert forall k :: n + 1 <= k < n + 1 + h ==> s[k] == Hashes(h)[k - (n + 1)];
    assert AfterIdentifier(alnum, s, n) == AfterWord(alnum, before);
    HashesEndIs(s, n + 1, n + 1 + h);
    assert s[n + 1] == '"' || s[n + 1] == '#';
    RawEndStops(text, h + 2, h);
    ShiftRawEnd(before, text, h + 2, h);
  }

  lemma StepOfCutOffString(alnum: char -> bool, s: string, before: string, text: string)
    requires s == before + text && text != "" && text[0] == '"'
    requires StringEnd(text, 1) >= |text|
    ensures var turn := Step(alnum, s, |before|);
            turn.pushed == "\"\"" && turn.next >= |s|
  {
    assert s[|before|] == '"';
    ShiftStringEnd(before, text, 1);
  }

  lemma StepAtEscape(alnum: char -> bool, s: string, i: nat)
    requires i + 1 < |s| && s[i] == '\'' && s[i + 1] == '\\' && (i + 2 < |s| ==> s[i + 2] != '\'')
    ensures Step(alnum, s, i) == Turn("", QuoteEnd(s, i + 2) + 1)
  {
    hide LineEnd, CommentEnd, HashesEnd, RawEnd, StringEnd, QuoteEnd;
  }

  lemma FirstTwo(text: string, a: char, b: char)
    requires StartsWith(text, [a, b])
    ensures |text| >= 2 && text[0] == a && text[1] == b
  {
    assert text[..2][0] == a && text[..2][1] == b;
  }

  lemma StepOfCutOffChar(alnum: char -> bool, s: string, before: string, text: string)
    requires s == before + text && StartsWith(text, "'\\")
    requires |text| > 2 ==> text[2] != '\''
    requires QuoteEnd(text, 2) >= |text|
    ensures var turn := Step(alnum, s, |before|);
            turn.pushed == "" && turn.next >= |s|
  {
    hide Step, QuoteEnd, Text.StartsWith;
    assert "'\\" == ['\'', '\\'];
    FirstTwo(text, '\'', '\\');
    assert forall k :: 0 <= k < |text| ==> s[|before| + k] == text[k];
    StepAtEscape(alnum, s, |before|);
    ShiftQuoteEnd(before, text, 2);
  }

  lemma StepOfCutOff(alnum: char -> bool, s: string, before: string, text: string)
    requires s == before + text && text != ""
    requires TokenAt(alnum, before, text) == None
    ensures var turn := Step(alnum, s, |before|);
            turn.pushed == CutOff(text) && turn.next >= |s|
  {
    if StartsWith(text, "/*") {
      StepOfCutOffComment(alnum, s, before, text);
    } else if RawAt(alnum, before, text) {
      StepOfCutOffRaw(alnum, s, before, text);
    } else if text[0] == '"' {
      StepOfCutOffString(alnum, s, before, text);
    } else {
      StepOfCutOffChar(alnum, s, before, text);
    }
  }

  lemma OneTokenFirst(alnum: char -> bool, before: string, t: Token, us: seq<Token>, text: string, tail: string)
    requires Begins(alnum, before, t, text)
    requires text[|Spelling(t)|..] == Render(us) + tail
    requires WellFormed(alnum, before + Spelling(t), us, tail)
    ensures text == Render([t] + us) + tail
    ensures WellFormed(alnum, before, [t] + us, tail)
    ensures before + Render([t] + us) == before + Spelling(t) + Render(us)
  {
    hide Spelling, Stands;
    assert ([t] + us)[1..] == us;
    assert text == Spelling(t) + text[|Spelling(t)|..];
  }

  /** Every text is a well-formed token sequence and at most one comment or
      literal that is never closed. */
  lemma {:induction false} Tokenizes(alnum: char -> bool, before: string, text: string)
    returns (ts: seq<Token>, tail: string)
    ensures text == Render(ts) + tail
    ensures WellFormed(alnum, before, ts, tail)
    ensures Unfinished(alnum, before + Render(ts), tail)
    decreases |text|
  {
    if Unfinished(alnum, before, text) {
      ts, tail := [], text;
      assert before + Render([]) == before;
    } else {
      TokenAtBegins(alnum, before, text);
      var t := TokenAt(alnum, before, text).value;
      SpellingNonempty(t);
      var us;
      us, tail := Tokenizes(alnum, before + Spelling(t), text[|Spelling(t)|..]);
      OneTokenFirst(alnum, before, t, us, text, tail);
      ts := [t] + us;
    }
  }

  lemma SpellingNonempty(t: Token)
    ensures Spelling(t) != ""
  {
  }

  /** The whole meaning of the lexer, on every source: the source is a sequence
      of tokens and perhaps an unclosed one, and the output is what is kept of
      the tokens and an empty string if the unclosed one is a string. */
  lemma LexerOnEverySource(alnum: char -> bool, source: string) returns (ts: seq<Token>, tail: string)
    ensures source == Render(ts) + tail
    ensures WellFormed(alnum, "", ts, tail) && Unfinished(alnum, Render(ts), tail)
    ensures CodeFrom(alnum, source, 0) == Blanked(ts) + CutOff(tail)
  {
    ts, tail := Tokenizes(alnum, "", source);
    assert "" + Render(ts) == Render(ts);
    LexesTokens(alnum, source, "", ts, tail);
    CutOffIsLast(alnum, source, Render(ts), tail);
  }

  // ---------- consequences ----------

  /** What an unfinished text is: the opening of a comment, a raw string, a string or an
      escaped character, and nothing after it that closes it. */
  lemma UnfinishedIsNeverClosed(alnum: char -> bool, before: string, text: string)
    requires Unfinished(alnum, before, text) && text != ""
    ensures || (StartsWith(text, "/*") && CutOff(text) == "" && Unclosed(text[2..], "*/"))
            || (exists h: nat, rest ::
                  && text == "r" + Hashes(h) + "\"" + rest && !AfterWord(alnum, before)
                  && CutOff(text) == "\"\"" && Unclosed(rest, RawClosing(h)))
            || (text[0] == '"' && CutOff(text) == "\"\""
                && forall chars :: StrOk(chars) ==> !StartsWith(text, "\"" + StrText(chars) + "\""))
            || (StartsWith(text, "'\\") && CutOff(text) == "" && '\'' !in text[2..])
  {
    hide LineEnd, CommentEnd, HashesEnd, RawEnd, StringEnd, QuoteEnd, Unclosed, ReadStr, ClosesComment, ClosesRaw;
    if StartsWith(text, "/*") {
      CommentNeverClosed(text);
    } else if RawAt(alnum, before, text) {
      RawNeverClosed(alnum, before, text);
    } else if text[0] == '"' {
      forall chars | StrOk(chars)
        ensures !StartsWith(text, "\"" + StrText(chars) + "\"")
      {
        if StartsWith(text, "\"" + StrText(chars) + "\"") { StringIsClosed(text, chars); }
      }
    } else {
      QuoteNeverClosed(text);
    }
  }

  lemma CommentNeverClosed(text: string)
    requires StartsWith(text, "/*") && !ClosesComment(text, CommentEnd(text, 2))
    ensures Unclosed(text[2..], "*/")
  {
    hide CommentEnd, Unclosed;
    CommentEndStops(text, 2);
    UnclosedComment(text[2..]);
    forall k: nat | k < |text[2..]|
      ensures !ClosesComment(text[2..], k)
    {
      assert !ClosesComment(text, k + 2);
    }
  }

  lemma RawNeverClosed(alnum: char -> bool, before: string, text: string)
    requires RawAt(alnum, before, text)
    requires var h := RawHashes(text); !ClosesRaw(text, RawEnd(text, h + 2, h), h)
    ensures var h := RawHashes(text);
            && h + 2 <= |text| && text == "r" + Hashes(h) + "\"" + text[h + 2..]
            && Unclosed(text[h + 2..], RawClosing(h))
  {
    hide RawAt, RawHashes, RawEnd, Unclosed, RawClosing, ClosesRaw;
    RawOpening(alnum, before, text);
    var h := RawHashes(text);
    RawEndStops(text, h + 2, h);
    CutInTwo(text, h + 2);
    NotClosedToTheEnd(text, h + 2, h);
    UnclosedRaw(text[h + 2..], h);
  }

  lemma CutInTwo(s: string, n: nat)
    requires n <= |s|
    ensures s == s[..n] + s[n..]
  {
  }

  lemma NotClosedToTheEnd(text: string, i: nat, h: nat)
    requires i <= |text| && forall k :: i <= k < |text| ==> !ClosesRaw(text, k, h)
    ensures forall k :: 0 <= k < |text| - i ==> !ClosesRaw(text[i..], k, h)
  {
    hide ClosesRaw;
    NotClosedInPart(text, i, |text|, h);
    assert text[i..|text|] == text[i..];
  }

  lemma StringIsClosed(text: string, chars: seq<StrChar>)
    requires StrOk(chars) && StartsWith(text, "\"" + StrText(chars) + "\"")
    ensures StringEnd(text, 1) < |text|
  {
    hide StringEnd, StrText, StrOk;
    var t := StrText(chars);
    assert text[1..1 + |t| + 1] == text[..|t| + 2][1..] == t + "\"";
    StringEndIs(text, 1, chars);
  }

  lemma QuoteNeverClosed(text: string)
    requires StartsWith(text, "'\\") && QuoteEnd(text, 2) >= |text|
    ensures '\'' !in text[2..]
  {
    hide QuoteEnd;
    QuoteEndStops(text, 2);
  }

  /** What is inside a comment, a string or a character literal never shows:
      two sources that agree on their plain characters and on where their
      literals stand give the same output. */
  lemma LiteralsNeverInfluence(alnum: char -> bool, ts: seq<Token>, us: seq<Token>)
    requires WellFormed(alnum, "", ts, "") && WellFormed(alnum, "", us, "")
    requires |ts| == |us|
    requires forall k :: 0 <= k < |ts| ==> Kept(ts[k]) == Kept(us[k])
    ensures CodeFrom(alnum, Render(ts), 0) == CodeFrom(alnum, Render(us), 0)
  {
    LexerKeepsOnlyCode(alnum, ts);
    LexerKeepsOnlyCode(alnum, us);
    BlankedAgree(ts, us);
  }

  lemma {:induction false} BlankedAgree(ts: seq<Token>, us: seq<Token>)
    requires |ts| == |us|
    requires forall k :: 0 <= k < |ts| ==> Kept(ts[k]) == Kept(us[k])
    ensures Blanked(ts) == Blanked(us)
  {
    if ts != [] { BlankedAgree(ts[1..], us[1..]); }
  }

  /** Quotes come only as the two of an emptied string. */
  predicate QuotesPaired(out: string) {
    out == "" ||
    if out[0] == '"' then |out| > 1 && out[1] == '"' && QuotesPaired(out[2..]) else QuotesPaired(out[1..])
  }

  lemma KeptFits(t: Token)
    ensures |Kept(t)| <= |Spelling(t)|
  {
  }

  lemma {:induction false} BlankedFits(ts: seq<Token>)
    ensures |Blanked(ts)| <= |Render(ts)|
  {
    hide Spelling, Kept;
    if ts != [] {
      KeptFits(ts[0]);
      BlankedFits(ts[1..]);
    }
  }

  /** What a token leaves is nothing, an emptied string, or one character that is
      no quote. */
  lemma KeptPairsQuotes(alnum: char -> bool, before: string, t: Token, after: string, rest: string)
    requires Stands(alnum, before, t, after) && QuotesPaired(rest)
    ensures QuotesPaired(Kept(t) + rest)
  {
    hide HashesEnd, ClosesRaw, ClosesComment, AfterIdentifier, OpensRaw;
    var out := Kept(t) + rest;
    match t {
      case Plain(c) => assert out[1..] == rest;
      case Str(_) => assert out[2..] == rest;
      case RawStr(_, _) => assert out[2..] == rest;
      case _ => assert out == rest;
    }
  }

  lemma {:induction false} BlankedPairsQuotes(alnum: char -> bool, before: string, ts: seq<Token>, tail: string)
    requires WellFormed(alnum, before, ts, tail)
    ensures QuotesPaired(Blanked(ts) + CutOff(tail))
    decreases |ts|
  {
    hide Spelling, Kept, Stands, QuotesPaired, CutOff;
    if ts == [] {
      assert Blanked(ts) + CutOff(tail) == CutOff(tail);
      CutOffPairsQuotes(tail);
    } else {
      BlankedPairsQuotes(alnum, before + Spelling(ts[0]), ts[1..], tail);
      KeptPairsQuotes(alnum, before, ts[0], Render(ts[1..]) + tail, Blanked(ts[1..]) + CutOff(tail));
      ConcatAssociates(Kept(ts[0]), Blanked(ts[1..]), CutOff(tail));
    }
  }

  lemma CutOffPairsQuotes(tail: string)
    ensures QuotesPaired(CutOff(tail))
  {
    assert CutOff(tail) != "" ==> CutOff(tail)[2..] == "";
  }

  /** On every source at all: the output is at most one character longer, and
      each of its quotes belongs to an emptied string. */
  lemma LexerBounds(alnum: char -> bool, source: string)
    ensures |CodeFrom(alnum, source, 0)| <= |source| + 1
    ensures QuotesPaired(CodeFrom(alnum, source, 0))
  {
    var ts, tail := LexerOnEverySource(alnum, source);
    BlankedPairsQuotes(alnum, "", ts, tail);
    BlankedFits(ts);
  }

  /** The character literals Rust writes with a backslash: the body is free of
      quotes, or it is the escaped quote itself. They vanish exactly when they
      are not that last one, whose third character is taken for the end. */
  lemma EscapedQuoteIsTheException(alnum: char -> bool, body: string)
    requires body != "" && ('\'' !in body || body == "'")
    ensures CodeFrom(alnum, "'\\" + body + "'", 0) == "" <==> body != "'"
  {
    if body == "'" {
      var ts := [CharLit('\\'), Plain('\'')];
      assert ts[1..] == [Plain('\'')] && [Plain('\'')][1..] == [];
      assert Render(ts) == "'\\" + body + "'";
      assert WellFormed(alnum, "" + Spelling(ts[0]), ts[1..], "");
      LexerKeepsOnlyCode(alnum, ts);
      assert Blanked(ts) == "'";
    } else {
      var ts := [EscapedChar(body)];
      assert Render(ts) == "'\\" + body + "'";
      LexerKeepsOnlyCode(alnum, ts);
    }
  }

  /** A comment ends at the first closing in it, wherever that is. */
  lemma CommentEndsAtFirstClose(alnum: char -> bool, before: string, body: string, after: string, k: nat)
    requires At(body, k, "*/") && forall j :: 0 <= j < k ==> !At(body, j, "*/")
    ensures var s := before + ("/*" + body + "*/") + after;
            Step(alnum, s, |before|) == Turn("", |before| + 2 + k + 2)
  {
    hide Step;
    var inner, rest := body[..k], body[k + 2..];
    assert body == inner + ("*/" + rest);
    forall j | 0 <= j < |inner|
      ensures !At(inner, j, "*/")
    {
      assert !At(body, j, "*/");
      if j + 2 <= |inner| { assert inner[j..j + 2] == body[j..j + 2]; }
    }
    StepOfBlockComment(alnum, before, inner, rest + "*/" + after);
    CloseRegroups(before, "/*", inner, "*/", rest, after);
  }

  lemma CloseRegroups(before: string, open: string, inner: string, close: string, rest: string, after: string)
    ensures before + (open + (inner + (close + rest)) + close) + after
         == before + (open + inner + close) + (rest + close + after)
  {
    assert open + (inner + (close + rest)) + close == open + inner + close + (rest + close);
    ConcatAssociates(before, open + inner + close, rest + close);
    ConcatAssociates(before + (open + inner + close), rest + close, after);
  }

  /** So a block comment is taken as a whole exactly if nothing in it closes one,
      which leaves out every comment with another inside it. */
  lemma CommentIsWholeUnlessClosedInside(alnum: char -> bool, before: string, body: string, after: string)
    ensures var s := before + ("/*" + body + "*/") + after;
            Step(alnum, s, |before|) == Turn("", |before| + |body| + 4)
            <==> forall k :: 0 <= k < |body| ==> !At(body, k, "*/")
  {
    hide Step, Text.At;
    if Unclosed(body, "*/") {
      StepOfBlockComment(alnum, before, body, after);
    } else {
      var k := FirstAt(body, "*/");
      AtInBounds(body, k, "*/");
      CommentEndsAtFirstClose(alnum, before, body, after, k);
    }
  }

  lemma AtInBounds(s: string, k: nat, word: string)
    requires At(s, k, word)
    ensures k + |word| <= |s|
  {
  }

  lemma FirstAt(body: string, word: string) returns (k: nat)
    requires !Unclosed(body, word)
    ensures k < |body| && At(body, k, word) && forall j :: 0 <= j < k ==> !At(body, j, word)
  {
    k := 0;
    while !At(body, k, word)
      invariant k < |body| && forall j :: 0 <= j < k ==> !At(body, j, word)
      decreases |body| - k
    {
      k := k + 1;
    }
  }

  /** A raw string is taken as a whole exactly if no letter, digit or underscore stands
      before it; after one, its first letter is pushed and the rest is read on. */
  lemma RawStringTakesNoWordBefore(alnum: char -> bool, before: string, hashes: nat, body: string, after: string)
    requires forall k :: 0 <= k < |body| ==> !At(body, k, "\"" + Hashes(hashes))
    ensures var text := "r" + Hashes(hashes) + "\"" + body + "\"" + Hashes(hashes);
            var turn := Step(alnum, before + text + after, |before|);
            && (turn == Turn("\"\"", |before| + |text|)
                <==> before == "" || !(alnum(before[|before| - 1]) || before[|before| - 1] == '_'))
            && (turn == Turn("\"\"", |before| + |text|) || turn == Turn("r", |before| + 1))
  {
    hide Step, Text.At, HashesEnd;
    if AfterWord(alnum, before) {
      var rest := Hashes(hashes) + "\"" + body + "\"" + Hashes(hashes);
      StepOfPlain(alnum, before, 'r', rest + after);
      RestOfRaw(before, Hashes(hashes), body, after);
    } else {
      StepOfRawStr(alnum, before, hashes, body, after);
    }
  }

  lemma RestOfRaw(before: string, h: string, body: string, after: string)
    ensures before + ("r" + h + "\"" + body + "\"" + h) + after
         == before + ['r'] + (h + "\"" + body + "\"" + h + after)
  {
    var rest := h + "\"" + body + "\"" + h;
    assert "r" + h + "\"" + body + "\"" + h == ['r'] + rest;
    ConcatAssociates(before, ['r'], rest);
    ConcatAssociates(before + ['r'], rest, after);
  }

  /** So of a byte-raw string the two letters are pushed, and the rest is read as an
      ordinary string, escapes and all. */
  lemma ByteRawStringIsOrdinary(alnum: char -> bool, before: string, chars: seq<StrChar>, after: string)
    requires alnum('b') && StrOk(chars)
    ensures var text := "br" + ("\"" + StrText(chars) + "\"");
            Lexes(alnum, before + text + after, |before|, "br\"\"", |before + text|)
  {
    hide Step, StrText, StrOk, HashesEnd;
    var ts := [Plain('b'), Plain('r'), Str(chars)];
    assert ts[1..] == [Plain('r'), Str(chars)] && ts[1..][1..] == [Str(chars)] && [Str(chars)][1..] == [];
    assert Render([Str(chars)]) == Spelling(Str(chars));
    assert Render(ts[1..]) == "r" + Spelling(Str(chars));
    assert Render(ts) == "b" + Render(ts[1..]);
    ConcatAssociates("b", "r", Spelling(Str(chars)));
    assert "b" + "r" == "br";
    assert WellFormed(alnum, before + "b" + "r", [Str(chars)], after);
    assert AfterWord(alnum, before + "b");
    assert WellFormed(alnum, before + "b", ts[1..], after);
    assert WellFormed(alnum, before, ts, after);
    assert Blanked([Str(chars)]) == "\"\"" + Blanked([]) == "\"\"";
    assert Blanked(ts[1..]) == "r" + "\"\"" == "r\"\"";
    assert Blanked(ts) == "b" + Blanked(ts[1..]) == "br\"\"";
    LexesTokens(alnum, before + Render(ts) + after, before, ts, after);
  }

  /** For one, a comment in a comment: the first closing ends the outer one too. */
  lemma NestedCommentIsCutShort(alnum: char -> bool)
    ensures CodeFrom(alnum, "/*/**/x*/", 0) == "x*/"
  {
    var ts := [BlockComment("/*"), Plain('x'), Plain('*'), Plain('/')];
    var t1, t2, t3 := [Plain('x'), Plain('*'), Plain('/')], [Plain('*'), Plain('/')], [Plain('/')];
    assert ts[1..] == t1 && t1[1..] == t2 && t2[1..] == t3 && t3[1..] == [];
    assert Render(t3) == "/" && Render(t2) == "*/" && Render(t1) == "x*/";
    assert Render(ts) == "/*/**/x*/";
    assert Blanked(t3) == "/" && Blanked(t2) == "*/" && Blanked(t1) == "x*/";
    assert WellFormed(alnum, "/*/**/x*", t3, "");
    assert WellFormed(alnum, "/*/**/x", t2, "");
    assert WellFormed(alnum, "/*/**/", t1, "");
    UnclosedComment("/*");
    assert WellFormed(alnum, "", ts, "");
    LexerKeepsOnlyCode(alnum, ts);
  }
}
