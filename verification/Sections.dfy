/** Replacing one section in a list of lines, whatever lines are: all that counts
    of a line is whether it is the section's header, opens another section, or
    neither. `ConfigFile` is this with lines of text.
 */
module Sections {
  import opened Text

  datatype Kind = Header | Opens | Plain

  /** From the next line that opens a section on. */
  function NextSection<T>(kind: T -> Kind, lines: seq<T>): (rest: seq<T>)
    ensures |rest| <= |lines|
    ensures rest != [] ==> kind(rest[0]) != Plain
  {
    if lines == [] || kind(lines[0]) != Plain then lines else NextSection(kind, lines[1..])
  }

  /** Every header and its section give way to `body`; the line that ends the
      section is kept without being looked at. */
  function Splice<T>(kind: T -> Kind, lines: seq<T>, body: seq<T>): seq<T>
    decreases |lines|
  {
    if lines == [] then []
    else if kind(lines[0]) != Header then [lines[0]] + Splice(kind, lines[1..], body)
    else
      var rest := NextSection(kind, lines[1..]);
      body + if rest == [] then [] else [rest[0]] + Splice(kind, rest[1..], body)
  }

  function Headers<T>(kind: T -> Kind, lines: seq<T>): nat {
    if lines == [] then 0 else (if kind(lines[0]) == Header then 1 else 0) + Headers(kind, lines[1..])
  }

  /** The lines before the header. */
  function Above<T>(kind: T -> Kind, lines: seq<T>): seq<T> {
    if lines == [] || kind(lines[0]) == Header then [] else [lines[0]] + Above(kind, lines[1..])
  }

  /** The lines after the header's section. */
  function Below<T>(kind: T -> Kind, lines: seq<T>): (below: seq<T>)
    ensures |below| <= |lines|
    ensures below != [] ==> kind(below[0]) != Plain
  {
    if lines == [] then []
    else if kind(lines[0]) == Header then NextSection(kind, lines[1..])
    else Below(kind, lines[1..])
  }

  /** The lines that are not in the section: it runs from a line that is its
      header to the next line that opens one. */
  function Outside<T>(kind: T -> Kind, lines: seq<T>, inside: bool): seq<T> {
    if lines == [] then []
    else match kind(lines[0])
      case Header => Outside(kind, lines[1..], true)
      case Opens => [lines[0]] + Outside(kind, lines[1..], false)
      case Plain => (if inside then [] else [lines[0]]) + Outside(kind, lines[1..], inside)
  }

  /** The lines of the section itself. */
  function Inside<T>(kind: T -> Kind, lines: seq<T>, inside: bool): seq<T> {
    if lines == [] then []
    else match kind(lines[0])
      case Header => [lines[0]] + Inside(kind, lines[1..], true)
      case Opens => Inside(kind, lines[1..], false)
      case Plain => (if inside then [lines[0]] else []) + Inside(kind, lines[1..], inside)
  }

  /** A header, then plain lines. */
  predicate IsSection<T>(kind: T -> Kind, section: seq<T>) {
    section != [] && kind(section[0]) == Header && forall k :: 0 < k < |section| ==> kind(section[k]) == Plain
  }

  /** A header and lines that open nothing make a section. */
  lemma SectionOf<T>(kind: T -> Kind, header: T, notes: seq<T>, fields: seq<T>)
    requires kind(header) == Header
    requires forall k :: 0 <= k < |notes| ==> kind(notes[k]) == Plain
    requires forall k :: 0 <= k < |fields| ==> kind(fields[k]) == Plain
    ensures IsSection(kind, [header] + notes + fields)
  {
  }

  predicate All<T>(ok: T -> bool, lines: seq<T>) { forall k :: 0 <= k < |lines| ==> ok(lines[k]) }

  lemma {:induction false} NextSectionKeepsAll<T>(kind: T -> Kind, ok: T -> bool, lines: seq<T>)
    requires All(ok, lines)
    ensures All(ok, NextSection(kind, lines))
  {
    if lines != [] && kind(lines[0]) == Plain { NextSectionKeepsAll(kind, ok, lines[1..]); }
  }

  /** What holds of every line and of the new section holds of every line after. */
  lemma {:induction false} SpliceKeepsAll<T>(kind: T -> Kind, ok: T -> bool, lines: seq<T>, section: seq<T>)
    requires All(ok, lines) && All(ok, section)
    ensures All(ok, Splice(kind, lines, section))
    decreases |lines|
  {
    if lines != [] {
      if kind(lines[0]) == Header {
        var rest := NextSection(kind, lines[1..]);
        NextSectionKeepsAll(kind, ok, lines[1..]);
        if rest != [] { SpliceKeepsAll(kind, ok, rest[1..], section); }
      } else {
        SpliceKeepsAll(kind, ok, lines[1..], section);
      }
    }
  }

  predicate OpensOrEnds<T>(kind: T -> Kind, lines: seq<T>) { lines == [] || kind(lines[0]) != Plain }

  // ---------- a list with at most one header, in parts ----------

  lemma {:induction false} HeadersConcat<T>(kind: T -> Kind, a: seq<T>, b: seq<T>)
    ensures Headers(kind, a + b) == Headers(kind, a) + Headers(kind, b)
  {
    if a == [] {
      assert a + b == b;
    } else {
      assert (a + b)[1..] == a[1..] + b;
      HeadersConcat(kind, a[1..], b);
    }
  }

  lemma {:induction false} NextSectionHeaders<T>(kind: T -> Kind, lines: seq<T>)
    ensures Headers(kind, NextSection(kind, lines)) == Headers(kind, lines)
  {
    if lines != [] && kind(lines[0]) == Plain { NextSectionHeaders(kind, lines[1..]); }
  }

  lemma {:induction false} HeadersAround<T>(kind: T -> Kind, lines: seq<T>)
    ensures Headers(kind, Above(kind, lines)) == 0
    ensures Headers(kind, lines) == 0 ==> Above(kind, lines) == lines && Below(kind, lines) == []
    ensures Headers(kind, lines) > 0 ==> Headers(kind, Below(kind, lines)) == Headers(kind, lines) - 1
  {
    if lines != [] {
      if kind(lines[0]) == Header {
        NextSectionHeaders(kind, lines[1..]);
      } else {
        HeadersAround(kind, lines[1..]);
        HeadersConcat(kind, [lines[0]], Above(kind, lines[1..]));
      }
    }
  }

  lemma {:induction false} SpliceWithoutHeader<T>(kind: T -> Kind, lines: seq<T>, body: seq<T>)
    requires Headers(kind, lines) == 0
    ensures Splice(kind, lines, body) == lines
  {
    if lines != [] { SpliceWithoutHeader(kind, lines[1..], body); }
  }

  lemma {:induction false} SpliceIs<T>(kind: T -> Kind, lines: seq<T>, body: seq<T>)
    requires Headers(kind, lines) <= 1
    ensures Splice(kind, lines, body) ==
            Above(kind, lines) + (if Headers(kind, lines) == 0 then [] else body) + Below(kind, lines)
  {
    if lines != [] {
      if kind(lines[0]) == Header {
        hide NextSection;
        var rest := NextSection(kind, lines[1..]);
        NextSectionHeaders(kind, lines[1..]);
        if rest != [] { SpliceWithoutHeader(kind, rest[1..], body); }
        assert [] + body + rest == body + rest;
      } else {
        SpliceIs(kind, lines[1..], body);
        var middle := if Headers(kind, lines) == 0 then [] else body;
        ConcatAssociates([lines[0]], Above(kind, lines[1..]), middle);
        ConcatAssociates([lines[0]], Above(kind, lines[1..]) + middle, Below(kind, lines[1..]));
      }
    }
  }

  /** A list with the section in it: what is around it, and nothing more. */
  lemma {:induction false} PartsOf<T>(kind: T -> Kind, above: seq<T>, section: seq<T>, below: seq<T>)
    requires Headers(kind, above) == 0 && IsSection(kind, section)
    requires Headers(kind, below) == 0 && OpensOrEnds(kind, below)
    ensures var lines := above + (section + below);
            && Headers(kind, lines) == 1 && Above(kind, lines) == above && Below(kind, lines) == below
  {
    var more := section + below;
    if above == [] {
      assert above + more == more;
      assert more[1..] == section[1..] + below;
      SkipsPlain(kind, section[1..], below);
    } else {
      assert (above + more)[1..] == above[1..] + more;
      PartsOf(kind, above[1..], section, below);
    }
  }

  lemma {:induction false} SkipsPlain<T>(kind: T -> Kind, plain: seq<T>, below: seq<T>)
    requires OpensOrEnds(kind, below) && forall k :: 0 <= k < |plain| ==> kind(plain[k]) == Plain
    ensures NextSection(kind, plain + below) == below
    ensures Headers(kind, plain + below) == Headers(kind, below)
    ensures Inside(kind, plain + below, true) == plain + Inside(kind, below, true)
  {
    if plain == [] {
      assert plain + below == below;
    } else {
      assert (plain + below)[1..] == plain[1..] + below;
      SkipsPlain(kind, plain[1..], below);
    }
  }

  lemma {:induction false} OutsideOfPlain<T>(kind: T -> Kind, lines: seq<T>)
    ensures Outside(kind, lines, true) == Outside(kind, NextSection(kind, lines), true)
  {
    if lines != [] && kind(lines[0]) == Plain { OutsideOfPlain(kind, lines[1..]); }
  }

  lemma {:induction false} OutsideWithoutHeader<T>(kind: T -> Kind, lines: seq<T>, inside: bool)
    requires Headers(kind, lines) == 0 && (inside ==> OpensOrEnds(kind, lines))
    ensures Outside(kind, lines, inside) == lines
  {
    if lines != [] { OutsideWithoutHeader(kind, lines[1..], false); }
  }

  /** With at most one header, what is outside is what is above and below. */
  lemma {:induction false} OutsideIs<T>(kind: T -> Kind, lines: seq<T>)
    requires Headers(kind, lines) <= 1
    ensures Outside(kind, lines, false) == Above(kind, lines) + Below(kind, lines)
  {
    if lines != [] {
      if kind(lines[0]) == Header {
        OutsideOfPlain(kind, lines[1..]);
        NextSectionHeaders(kind, lines[1..]);
        OutsideWithoutHeader(kind, NextSection(kind, lines[1..]), true);
      } else {
        OutsideIs(kind, lines[1..]);
      }
    }
  }

  lemma {:induction false} InsideWithoutHeader<T>(kind: T -> Kind, lines: seq<T>, inside: bool)
    requires Headers(kind, lines) == 0 && (inside ==> OpensOrEnds(kind, lines))
    ensures Inside(kind, lines, inside) == []
  {
    if lines != [] { InsideWithoutHeader(kind, lines[1..], false); }
  }

  lemma {:induction false} InsideIsTheSection<T>(kind: T -> Kind, above: seq<T>, section: seq<T>, below: seq<T>)
    requires Headers(kind, above) == 0 && IsSection(kind, section)
    requires Headers(kind, below) == 0 && OpensOrEnds(kind, below)
    ensures Inside(kind, above + (section + below), false) == section
  {
    var more := section + below;
    if above == [] {
      assert above + more == more;
      assert more[1..] == section[1..] + below;
      SkipsPlain(kind, section[1..], below);
      InsideWithoutHeader(kind, below, true);
    } else {
      assert (above + more)[1..] == above[1..] + more;
      InsideIsTheSection(kind, above[1..], section, below);
    }
  }

  // ---------- saving and forgetting ----------

  /** Where a section goes: in the old one's place, or at the end after `gap`. */
  function Saved<T>(kind: T -> Kind, lines: seq<T>, gap: seq<T>, section: seq<T>): seq<T> {
    if Headers(kind, lines) == 0 then lines + gap + section else Splice(kind, lines, section)
  }

  function Forgotten<T>(kind: T -> Kind, lines: seq<T>): seq<T> { Splice(kind, lines, []) }

  lemma SavedIs<T>(kind: T -> Kind, lines: seq<T>, gap: seq<T>, section: seq<T>)
    requires Headers(kind, lines) <= 1 && Headers(kind, gap) == 0
    ensures var before := if Headers(kind, lines) == 0 then lines + gap else Above(kind, lines);
            && Headers(kind, before) == 0 && Headers(kind, Below(kind, lines)) == 0
            && Saved(kind, lines, gap, section) == before + (section + Below(kind, lines))
  {
    HeadersAround(kind, lines);
    HeadersConcat(kind, lines, gap);
    SpliceIs(kind, lines, section);
  }

  /** What a saved list is above and below its section. */
  lemma SavedParts<T>(kind: T -> Kind, lines: seq<T>, gap: seq<T>, section: seq<T>)
    requires Headers(kind, lines) <= 1 && Headers(kind, gap) == 0 && IsSection(kind, section)
    ensures var once := Saved(kind, lines, gap, section);
            && Headers(kind, once) == 1
            && Above(kind, once) == (if Headers(kind, lines) == 0 then lines + gap else Above(kind, lines))
            && Below(kind, once) == Below(kind, lines)
            && Inside(kind, once, false) == section
  {
    var before := if Headers(kind, lines) == 0 then lines + gap else Above(kind, lines);
    SavedIs(kind, lines, gap, section);
    PartsOf(kind, before, section, Below(kind, lines));
    InsideIsTheSection(kind, before, section, Below(kind, lines));
  }

  lemma SaveTwice<T>(kind: T -> Kind, lines: seq<T>, gap: seq<T>, first: seq<T>, second: seq<T>, gap': seq<T>)
    requires Headers(kind, lines) <= 1 && Headers(kind, gap) == 0
    requires IsSection(kind, first) && IsSection(kind, second)
    ensures Saved(kind, Saved(kind, lines, gap, first), gap', second) == Saved(kind, lines, gap, second)
  {
    var once := Saved(kind, lines, gap, first);
    SavedParts(kind, lines, gap, first);
    SavedIs(kind, lines, gap, second);
    SpliceIs(kind, once, second);
    ConcatAssociates(Above(kind, once), second, Below(kind, once));
  }

  lemma SaveThenForget<T>(kind: T -> Kind, lines: seq<T>, gap: seq<T>, section: seq<T>)
    requires Headers(kind, lines) <= 1 && Headers(kind, gap) == 0 && IsSection(kind, section)
    ensures var left := Forgotten(kind, Saved(kind, lines, gap, section));
            && Headers(kind, left) == 0
            && left == if Headers(kind, lines) == 0 then lines + gap else Forgotten(kind, lines)
  {
    var before := if Headers(kind, lines) == 0 then lines + gap else Above(kind, lines);
    var below := Below(kind, lines);
    HeadersAround(kind, lines);
    SavedIs(kind, lines, gap, section);
    PartsOf(kind, before, section, below);
    SpliceIs(kind, Saved(kind, lines, gap, section), []);
    SpliceIs(kind, lines, []);
    HeadersConcat(kind, before, below);
    assert before + [] + below == before + below;
  }

  lemma SaveKeepsOutside<T>(kind: T -> Kind, lines: seq<T>, gap: seq<T>, section: seq<T>)
    requires Headers(kind, lines) <= 1 && Headers(kind, gap) == 0 && IsSection(kind, section)
    ensures Outside(kind, Saved(kind, lines, gap, section), false) ==
            if Headers(kind, lines) == 0 then lines + gap else Outside(kind, lines, false)
  {
    SavedParts(kind, lines, gap, section);
    OutsideIs(kind, Saved(kind, lines, gap, section));
    if Headers(kind, lines) == 0 {
      HeadersAround(kind, lines);
      assert lines + gap + [] == lines + gap;
    } else {
      OutsideIs(kind, lines);
    }
  }

  lemma ForgetKeepsOutside<T>(kind: T -> Kind, lines: seq<T>)
    requires Headers(kind, lines) <= 1
    ensures Outside(kind, Forgotten(kind, lines), false) == Outside(kind, lines, false)
    ensures Headers(kind, Forgotten(kind, lines)) == 0
  {
    HeadersAround(kind, lines);
    SpliceIs(kind, lines, []);
    assert Forgotten(kind, lines) == Above(kind, lines) + Below(kind, lines);
    HeadersConcat(kind, Above(kind, lines), Below(kind, lines));
    OutsideWithoutHeader(kind, Forgotten(kind, lines), false);
    OutsideIs(kind, lines);
  }
}
