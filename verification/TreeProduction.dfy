/** `production` of src/tree.rs: a source without the items marked
    `#[cfg(test)]`, found by counting braces line by line.
 */
module TreeProduction {
  import opened Text

  const MARKER := "#[cfg(test)]"

  function Count(s: string, c: char): nat {
    if s == [] then 0 else (if s[0] == c then 1 else 0) + Count(s[1..], c)
  }

  function Balance(line: string): int { Count(line, '{') - Count(line, '}') }

  predicate EndsItem(line: string) {
    EndsWith(Trim(line), ";") || EndsWith(Trim(line), "}")
  }

  predicate IsAttribute(line: string) { StartsWith(Trim(line), "#[") }

  predicate IsMarker(line: string) { Trim(line) == MARKER }

  /** One line of a skipped item: the depth to go on with, or the item's end. */
  function Turn(line: string, depth: int): Option<int> {
    if depth == 0 && IsAttribute(line) then Some(depth)
    else if depth + Balance(line) <= 0 && EndsItem(line) then None
    else Some(depth + Balance(line))
  }

  /** The lines left once the item that `lines` begins with has been skipped. */
  function AfterItem(lines: seq<string>, depth: int): (rest: seq<string>)
    ensures |rest| <= |lines|
    decreases |lines|
  {
    if lines == [] then []
    else match Turn(lines[0], depth)
      case None => lines[1..]
      case Some(next) => AfterItem(lines[1..], next)
  }

  function Kept(lines: seq<string>): seq<string>
    decreases |lines|
  {
    if lines == [] then []
    else if IsMarker(lines[0]) then Kept(AfterItem(lines[1..], 0))
    else [lines[0]] + Kept(lines[1..])
  }

  function ProductionOf(code: string): string { Unlines(Kept(Lines(code))) }

  method SkipItem(lines: seq<string>) returns (rest: seq<string>)
    ensures rest == AfterItem(lines, 0)
  {
    rest := lines;
    var depth := 0;
    while rest != []
      invariant AfterItem(rest, depth) == AfterItem(lines, 0)
      decreases |rest|
    {
      var turn := Turn(rest[0], depth);
      rest := rest[1..];
      if turn == None {
        return;
      }
      depth := turn.value;
    }
  }

  /** What has been pushed and the lines still to be kept make the whole. */
  predicate Pushes(out: string, lines: seq<string>, whole: string) {
    out + Unlines(Kept(lines)) == whole
  }

  lemma PushesLine(out: string, lines: seq<string>, whole: string)
    requires lines != [] && !IsMarker(lines[0]) && Pushes(out, lines, whole)
    ensures Pushes(out + lines[0] + "\n", lines[1..], whole)
  {
    var rest := Kept(lines[1..]);
    assert Kept(lines) == [lines[0]] + rest;
    assert Unlines([lines[0]] + rest) == lines[0] + "\n" + Unlines(rest);
    LineAssociates(out, lines[0], Unlines(rest));
  }

  lemma LineAssociates(out: string, line: string, rest: string)
    ensures out + (line + "\n" + rest) == out + line + "\n" + rest
  {
  }

  lemma PushesNothing(out: string, lines: seq<string>, whole: string)
    requires lines != [] && IsMarker(lines[0]) && Pushes(out, lines, whole)
    ensures Pushes(out, AfterItem(lines[1..], 0), whole)
  {
  }

  /** `production`: the two loops take lines from one iterator. */
  method Production(code: string) returns (out: string)
    ensures out == ProductionOf(code)
  {
    hide Text.Lines, Text.Unlines, Kept, AfterItem, Text.Trim, Pushes;
    out := "";
    var lines := Lines(code);
    PushesAll(lines);
    while lines != []
      invariant Pushes(out, lines, ProductionOf(code))
      decreases |lines|
    {
      var line := lines[0];
      ghost var before := lines;
      lines := lines[1..];
      if !IsMarker(line) {
        PushesLine(out, before, ProductionOf(code));
        out := out + line + "\n";
        continue;
      }
      PushesNothing(out, before, ProductionOf(code));
      lines := SkipItem(lines);
    }
    PushedAll(out, ProductionOf(code));
  }

  lemma PushesAll(lines: seq<string>)
    ensures Pushes("", lines, Unlines(Kept(lines)))
  {
    assert "" + Unlines(Kept(lines)) == Unlines(Kept(lines));
  }

  lemma PushedAll(out: string, whole: string)
    requires Pushes(out, [], whole)
    ensures out == whole
  {
    assert out + "" == out;
  }

  // ---------- lines, as they are written ----------

  /** `#[cfg(test)]` is all there is on it. */
  ghost predicate Marker(line: string) { IsAlone(line, "#[cfg(test)]") }

  ghost predicate Attribute(line: string) { Begins(line, "#[") }

  /** The last thing on it closes an item. */
  ghost predicate Finishes(line: string) { Ends(line, ";") || Ends(line, "}") }

  /** Opening braces less closing ones. */
  function Braces(line: string): int { multiset(line)['{'] as int - multiset(line)['}'] as int }

  lemma {:induction false} CountIs(s: string, c: char)
    ensures Count(s, c) == multiset(s)[c]
  {
    if s != [] {
      CountIs(s[1..], c);
      assert s == [s[0]] + s[1..];
    }
  }

  lemma BalanceIs(line: string)
    ensures Balance(line) == Braces(line)
  {
    CountIs(line, '{');
    CountIs(line, '}');
  }

  lemma MarkerIs(line: string)
    ensures IsMarker(line) <==> Marker(line)
  {
    hide Text.Trim, Text.IsAlone;
    TrimIsWord(line, "#[cfg(test)]");
  }

  lemma AttributeIs(line: string)
    ensures IsAttribute(line) <==> Attribute(line)
  {
    hide Text.Trim, Text.Begins;
    TrimBeginsWith(line, "#[");
  }

  lemma FinishesIs(line: string)
    ensures EndsItem(line) <==> Finishes(line)
  {
    hide Text.Trim, Text.Ends, Text.EndsWith;
    TrimEndsWith(line, ";");
    TrimEndsWith(line, "}");
  }

  lemma LineIs(line: string)
    ensures IsMarker(line) <==> Marker(line)
    ensures IsAttribute(line) <==> Attribute(line)
    ensures EndsItem(line) <==> Finishes(line)
    ensures Balance(line) == Braces(line)
  {
    hide *;
    MarkerIs(line);
    AttributeIs(line);
    FinishesIs(line);
    BalanceIs(line);
  }

  // ---------- where an item ends ----------

  /** How many braces are open after some lines, attributes outside of any aside. */
  ghost function Depth(lines: seq<string>): int {
    if lines == [] then 0 else
      var d, last := Depth(lines[..|lines| - 1]), lines[|lines| - 1];
      if d == 0 && Attribute(last) then 0 else d + Braces(last)
  }

  /** The item is over after line `k`: no brace is open, and the line finishes it. */
  ghost predicate EndsAfter(lines: seq<string>, k: nat) {
    && k < |lines| && Finishes(lines[k]) && Depth(lines[..k + 1]) <= 0
    && !(Depth(lines[..k]) == 0 && Attribute(lines[k]))
  }

  lemma TurnIs(lines: seq<string>, k: nat)
    requires k < |lines|
    ensures Turn(lines[k], Depth(lines[..k])) == if EndsAfter(lines, k) then None else Some(Depth(lines[..k + 1]))
  {
    hide IsMarker, Marker, IsAttribute, EndsItem, Balance, Attribute, Finishes, Braces, Depth;
    LineIs(lines[k]);
    DepthMore(lines, k);
  }

  lemma DepthMore(lines: seq<string>, k: nat)
    requires k < |lines|
    ensures var d := Depth(lines[..k]);
            Depth(lines[..k + 1]) == if d == 0 && Attribute(lines[k]) then 0 else d + Braces(lines[k])
  {
    hide Attribute, Braces;
    assert lines[..k + 1][..k] == lines[..k];
  }

  lemma {:induction false} ItemGoesOn(lines: seq<string>, i: nat, end: nat)
    requires i <= end <= |lines| && (end < |lines| ==> EndsAfter(lines, end))
    requires forall k: nat :: k < end ==> !EndsAfter(lines, k)
    ensures AfterItem(lines[i..], Depth(lines[..i])) == if end < |lines| then lines[end + 1..] else []
    decreases end - i
  {
    hide Turn, EndsAfter, Depth;
    if i < |lines| {
      TurnIs(lines, i);
      assert lines[i..][0] == lines[i] && lines[i..][1..] == lines[i + 1..];
      if i < end { ItemGoesOn(lines, i + 1, end); }
    }
  }

  /** What is skipped after a marker is exactly the lines up to the first one that
      ends the item, whatever they are; all of them, if none does. */
  lemma ItemEndsAtFirst(lines: seq<string>, end: nat)
    requires end <= |lines| && (end < |lines| ==> EndsAfter(lines, end))
    requires forall k: nat :: k < end ==> !EndsAfter(lines, k)
    ensures AfterItem(lines, 0) == if end < |lines| then lines[end + 1..] else []
  {
    assert lines[0..] == lines && lines[..0] == [];
    ItemGoesOn(lines, 0, end);
  }

  // ---------- what it keeps ----------

  /** `a` is `b` with some lines left out. */
  predicate Subsequence(a: seq<string>, b: seq<string>) {
    a == [] || (b != [] && ((a[0] == b[0] && Subsequence(a[1..], b[1..])) || Subsequence(a, b[1..])))
  }

  lemma {:induction false} SubsequenceOfSuffix(a: seq<string>, b: seq<string>, k: nat)
    requires k <= |b| && Subsequence(a, b[k..])
    ensures Subsequence(a, b)
    decreases |b|
  {
    if k > 0 {
      assert b[k..] == b[1..][k - 1..];
      SubsequenceOfSuffix(a, b[1..], k - 1);
    } else {
      assert b[0..] == b;
    }
  }

  lemma {:induction false} AfterItemIsSuffix(lines: seq<string>, depth: int)
    ensures AfterItem(lines, depth) == lines[|lines| - |AfterItem(lines, depth)|..]
    decreases |lines|
  {
    hide Turn;
    if lines != [] {
      match Turn(lines[0], depth)
      case None =>
      case Some(next) => AfterItemIsSuffix(lines[1..], next);
    }
  }

  /** Only original lines, in their order, and no marker among them. */
  lemma {:induction false} KeepsLinesInOrder(lines: seq<string>)
    ensures Subsequence(Kept(lines), lines)
    ensures forall line :: line in Kept(lines) ==> line in lines && !Marker(line)
    decreases |lines|
  {
    hide Marker, IsMarker;
    if lines != [] {
      LineIs(lines[0]);
      if IsMarker(lines[0]) {
        var rest := AfterItem(lines[1..], 0);
        KeepsLinesInOrder(rest);
        AfterItemIsSuffix(lines[1..], 0);
        var k := |lines| - |rest|;
        assert rest == lines[k..];
        SubsequenceOfSuffix(Kept(lines), lines, k);
      } else {
        KeepsLinesInOrder(lines[1..]);
        assert Kept(lines)[1..] == Kept(lines[1..]);
      }
    }
  }

  /** A source without a marker loses nothing. */
  lemma {:induction false} KeepsEverythingUnmarked(lines: seq<string>)
    requires forall line :: line in lines ==> !Marker(line)
    ensures Kept(lines) == lines
  {
    if lines != [] {
      hide Marker, IsMarker;
      LineIs(lines[0]);
      KeepsEverythingUnmarked(lines[1..]);
    }
  }

  // ---------- exactly the item ----------

  function BalanceOf(lines: seq<string>): int {
    if lines == [] then 0 else BalanceOf(lines[..|lines| - 1]) + Braces(lines[|lines| - 1])
  }

  /** A line of a signature that has not reached its brace yet. */
  ghost predicate IsHeader(line: string) {
    '{' !in line && '}' !in line && !Finishes(line) && !Attribute(line)
  }

  /** Lines whose braces stay open until the last, which closes them all and
      ends the item: `mod tests;`, `fn f() {}`, or a block over many lines. */
  ghost predicate IsBody(lines: seq<string>) {
    && lines != []
    && !Attribute(lines[0])
    && (forall k :: 0 < k < |lines| ==> BalanceOf(lines[..k]) > 0)
    && BalanceOf(lines) == 0
    && Finishes(lines[|lines| - 1])
  }

  lemma {:induction false} SkipsAttributes(attributes: seq<string>, rest: seq<string>)
    requires forall k :: 0 <= k < |attributes| ==> Attribute(attributes[k])
    ensures AfterItem(attributes + rest, 0) == AfterItem(rest, 0)
  {
    hide IsAttribute, Attribute;
    if attributes == [] {
      assert attributes + rest == rest;
    } else {
      LineIs(attributes[0]);
      assert (attributes + rest)[1..] == attributes[1..] + rest;
      SkipsAttributes(attributes[1..], rest);
    }
  }

  lemma HeaderTurns(line: string)
    requires IsHeader(line)
    ensures Turn(line, 0) == Some(0)
  {
    hide IsMarker, Marker, IsAttribute, EndsItem, Balance, Attribute, Finishes, Text.Trim;
    LineIs(line);
  }

  lemma {:induction false} SkipsHeader(header: seq<string>, rest: seq<string>)
    requires forall k :: 0 <= k < |header| ==> IsHeader(header[k])
    ensures AfterItem(header + rest, 0) == AfterItem(rest, 0)
  {
    hide IsHeader, Turn;
    if header == [] {
      assert header + rest == rest;
    } else {
      HeaderTurns(header[0]);
      assert (header + rest)[1..] == header[1..] + rest;
      SkipsHeader(header[1..], rest);
    }
  }

  lemma BalanceMore(lines: seq<string>, k: nat)
    requires k < |lines|
    ensures BalanceOf(lines[..0]) == 0
    ensures BalanceOf(lines[..k + 1]) == BalanceOf(lines[..k]) + Braces(lines[k])
  {
    assert lines[..k + 1][..k] == lines[..k];
  }

  lemma {:induction false} SkipsBody(body: seq<string>, k: nat, rest: seq<string>)
    requires IsBody(body) && k < |body|
    ensures AfterItem(body[k..] + rest, BalanceOf(body[..k])) == rest
    decreases |body| - k
  {
    hide IsMarker, Marker, IsAttribute, EndsItem, Balance, Attribute, Finishes, Braces, BalanceOf;
    var lines := body[k..] + rest;
    LineIs(body[k]);
    assert lines[0] == body[k] && lines[1..] == body[k + 1..] + rest;
    BalanceMore(body, k);
    if k + 1 == |body| {
      assert body[..k + 1] == body;
      assert lines[1..] == rest;
    } else {
      SkipsBody(body, k + 1, rest);
    }
  }

  lemma SkipsItem(attributes: seq<string>, header: seq<string>, body: seq<string>, after: seq<string>)
    requires forall k :: 0 <= k < |attributes| ==> Attribute(attributes[k])
    requires forall k :: 0 <= k < |header| ==> IsHeader(header[k])
    requires IsBody(body)
    ensures AfterItem(attributes + (header + (body + after)), 0) == after
  {
    SkipsAttributes(attributes, header + (body + after));
    SkipsHeader(header, body + after);
    SkipsBody(body, 0, after);
    assert body[0..] == body && body[..0] == [];
  }

  /** `kept` is what is left of `lines`. */
  predicate Leaves(lines: seq<string>, kept: seq<string>) { Kept(lines) == kept }

  lemma LeavesOneMore(line: string, lines: seq<string>, kept: seq<string>)
    requires !Marker(line) && Leaves(lines, kept)
    ensures Leaves([line] + lines, [line] + kept)
  {
    LineIs(line);
    assert ([line] + lines)[1..] == lines;
  }

  lemma {:induction false} LeavesUnmarkedPrefix(before: seq<string>, rest: seq<string>, kept: seq<string>)
    requires forall line :: line in before ==> !Marker(line)
    requires Leaves(rest, kept)
    ensures Leaves(before + rest, before + kept)
  {
    if before == [] {
      assert before + rest == rest && before + kept == kept;
    } else {
      assert before[0] in before;
      LeavesUnmarkedPrefix(before[1..], rest, kept);
      LeavesOneMore(before[0], before[1..] + rest, before[1..] + kept);
      FirstThenRest(before, rest);
      FirstThenRest(before, kept);
    }
  }

  /** A marked item goes as a whole, and nothing else does: the marker, its
      attributes, the lines of its signature and its body. */
  lemma RemovesExactlyTheItem(before: seq<string>, marker: string, attributes: seq<string>,
                              header: seq<string>, body: seq<string>, after: seq<string>)
    requires forall line :: line in before ==> !Marker(line)
    requires Marker(marker)
    requires forall k :: 0 <= k < |attributes| ==> Attribute(attributes[k])
    requires forall k :: 0 <= k < |header| ==> IsHeader(header[k])
    requires IsBody(body)
    ensures Kept(before + ([marker] + (attributes + (header + (body + after))))) == before + Kept(after)
  {
    hide IsMarker, Marker, IsHeader, IsBody, Attribute;
    LineIs(marker);
    var item := attributes + (header + (body + after));
    assert ([marker] + item)[1..] == item;
    SkipsItem(attributes, header, body, after);
    assert Leaves([marker] + item, Kept(after));
    LeavesUnmarkedPrefix(before, [marker] + item, Kept(after));
  }

  // ---------- doing it twice ----------

  lemma TrimDropCr(line: string)
    ensures Trim(DropCr(line)) == Trim(line)
  {
  }

  lemma {:induction false} UnmarkedDropCrs(lines: seq<string>)
    requires forall line :: line in lines ==> !IsMarker(line)
    ensures Kept(DropCrs(lines)) == DropCrs(lines)
  {
    if lines != [] {
      assert lines[0] in lines;
      TrimDropCr(lines[0]);
      UnmarkedDropCrs(lines[1..]);
      assert DropCrs(lines)[1..] == DropCrs(lines[1..]);
    }
  }

  lemma {:induction false} DropCrsShortens(lines: seq<string>)
    ensures |Unlines(DropCrs(lines))| <= |Unlines(lines)|
    ensures (exists line :: line in lines && DropCr(line) != line) ==> |Unlines(DropCrs(lines))| < |Unlines(lines)|
  {
    if lines != [] {
      DropCrsShortens(lines[1..]);
      assert forall line :: line in lines ==> line == lines[0] || line in lines[1..];
      assert DropCrs(lines)[1..] == DropCrs(lines[1..]);
    }
  }

  lemma {:induction false} DropCrsSame(lines: seq<string>)
    requires forall line :: line in lines ==> DropCr(line) == line
    ensures DropCrs(lines) == lines
  {
    if lines != [] { DropCrsSame(lines[1..]); }
  }

  /** Idempotent exactly when no kept line still ends in a carriage return
      after `lines` has taken one off it. */
  lemma IdempotentUnlessCarriageReturns(code: string)
    ensures ProductionOf(ProductionOf(code)) == ProductionOf(code)
            <==> forall line :: line in Kept(Lines(code)) ==> DropCr(line) == line
  {
    var kept := Kept(Lines(code));
    KeepsLinesInOrder(Lines(code));
    forall i | 0 <= i < |kept|
      ensures '\n' !in kept[i]
    {
      assert kept[i] in kept;
    }
    forall line | line in kept
      ensures !IsMarker(line)
    {
      LineIs(line);
    }
    LinesUnlines(kept);
    UnmarkedDropCrs(kept);
    assert ProductionOf(ProductionOf(code)) == Unlines(DropCrs(kept));
    if forall line :: line in kept ==> DropCr(line) == line {
      DropCrsSame(kept);
    } else {
      DropCrsShortens(kept);
    }
  }

  /** What a caller can see beforehand: it is idempotent on every source in which no
      newline has two carriage returns before it and none ends the text, CRLF sources
      among them; and of the sources without a marker it is on no others. */
  lemma IdempotentOnOrdinarySources(code: string)
    ensures !LeavesCr(code) ==> ProductionOf(ProductionOf(code)) == ProductionOf(code)
    ensures (forall line :: line in Lines(code) ==> !Marker(line)) ==>
              (ProductionOf(ProductionOf(code)) == ProductionOf(code) <==> !LeavesCr(code))
  {
    hide Text.Lines, Text.LeavesCr, Kept, ProductionOf, Marker;
    IdempotentUnlessCarriageReturns(code);
    LinesLeaveNoCr(code);
    KeepsLinesInOrder(Lines(code));
    NoneToDrop(Lines(code));
    if forall line :: line in Lines(code) ==> !Marker(line) {
      KeepsEverythingUnmarked(Lines(code));
    }
  }

  lemma NoneToDrop(lines: seq<string>)
    requires forall i :: 0 <= i < |lines| ==> '\n' !in lines[i]
    ensures AreLines(lines) <==> forall line :: line in lines ==> DropCr(line) == line
  {
    assert forall i :: 0 <= i < |lines| ==> lines[i] in lines;
  }

  lemma KeptLine(line: string)
    requires !IsMarker(line)
    ensures Kept([line]) == [line]
  {
    assert [line][1..] == [];
  }

  /** The carriage return left by `\r\r\n` is taken off by the second pass. */
  lemma NotAlwaysIdempotent()
    ensures ProductionOf("a\r\r\n") != ProductionOf(ProductionOf("a\r\r\n"))
  {
    hide Text.Lines, Text.Trim, Kept, Text.Unlines;
    var code := "a\r\r\n";
    assert code == "a\r\r" + "\n" + "";
    LinesOfOneMore("a\r\r", "");
    NoLinesAtAll();
    assert DropCr("a\r\r") == "a\r" && DropCr("a\r") == "a";
    assert Lines(code) == ["a\r"];
    TrimBegins("a\r");
    KeptLine("a\r");
    IdempotentUnlessCarriageReturns(code);
  }

  lemma NoLinesAtAll()
    ensures Lines("") == []
  {
  }

  lemma TrimBegins(s: string)
    requires s != "" && !IsWhitespace(s[0])
    ensures Trim(s) != "" && Trim(s)[0] == s[0]
  {
    TrimEndKeepsFirst(s);
  }

  lemma {:induction false} TrimEndKeepsFirst(s: string)
    requires s != "" && !IsWhitespace(s[0])
    ensures TrimEnd(s) != "" && TrimEnd(s)[0] == s[0]
  {
    if IsWhitespace(s[|s| - 1]) { TrimEndKeepsFirst(s[..|s| - 1]); }
  }
}
