/**
 * The `chunks` command of the command-line tool: the comma-separated
 * selector list, its one-line summary and the status it reports.
 */
module ChunksCmd {
  import opened Wrappers
  import opened Text

  /** The pieces trimmed, with the empty ones dropped, in their order. */
  function KeepTrimmed(pieces: seq<string>): (r: seq<string>)
    ensures |r| <= |pieces|
  {
    if |pieces| == 0 then []
    else
      var t := Trim(pieces[0]);
      (if t == "" then [] else [t]) + KeepTrimmed(pieces[1..])
  }

  /** `parse_selectors`: split on ',', trim each piece and drop the empty ones. */
  function ParseSelectors(csv: string): (r: seq<string>)
    ensures forall i :: 0 <= i < |r| ==> Selector(r[i])
  {
    KeepTrimmedShape(Split(csv, {','}));
    KeepTrimmed(Split(csv, {','}))
  }

  /** A usable selector: non-empty, already trimmed, and free of ','. */
  predicate Selector(s: string)
  {
    s != "" && Trim(s) == s && ',' !in s
  }

  /** A trimmed piece without commas is a selector unless it is empty. */
  lemma TrimmedSelector(p: string)
    requires NoneIn(p, {','}) && Trim(p) != ""
    ensures Selector(Trim(p))
  {
    TrimIdempotent(p);
    TrimChars(p);
  }

  lemma {:induction false} KeepTrimmedShape(pieces: seq<string>)
    requires forall i :: 0 <= i < |pieces| ==> NoneIn(pieces[i], {','})
    ensures forall i :: 0 <= i < |KeepTrimmed(pieces)| ==> Selector(KeepTrimmed(pieces)[i])
  {
    if |pieces| > 0 {
      var t := Trim(pieces[0]);
      var rest := KeepTrimmed(pieces[1..]);
      KeepTrimmedShape(pieces[1..]);
      if t != "" {
        TrimmedSelector(pieces[0]);
        assert KeepTrimmed(pieces) == [t] + rest;
      } else {
        assert KeepTrimmed(pieces) == rest;
      }
    }
  }

  /** An empty list has no selectors. */
  lemma ParseSelectorsEmpty()
    ensures ParseSelectors("") == []
  {
    assert Split("", {','}) == [""];
    assert Trim("") == "";
  }

  lemma {:induction false} KeepTrimmedAppend(p: seq<string>, q: seq<string>)
    ensures KeepTrimmed(p + q) == KeepTrimmed(p) + KeepTrimmed(q)
  {
    if |p| > 0 {
      assert (p + q)[1..] == p[1..] + q;
      KeepTrimmedAppend(p[1..], q);
    } else {
      assert p + q == q;
    }
  }

  /** The selectors of two comma-joined lists are those of the first, then those of the second. */
  lemma ParseSelectorsAppend(a: string, b: string)
    ensures ParseSelectors(a + "," + b) == ParseSelectors(a) + ParseSelectors(b)
  {
    SplitAppend(a, b, ',', {','});
    KeepTrimmedAppend(Split(a, {','}), Split(b, {','}));
  }

  /** Only the trim of the first piece matters. */
  lemma KeepTrimmedHead(x: string, y: string, rest: seq<string>)
    requires Trim(x) == Trim(y)
    ensures KeepTrimmed([x] + rest) == KeepTrimmed([y] + rest)
  {
    assert ([x] + rest)[1..] == rest;
    assert ([y] + rest)[1..] == rest;
  }

  /** Whitespace in front of a list does not change its selectors. */
  lemma ParseSelectorsPadded(pad: string, b: string)
    requires forall i :: 0 <= i < |pad| ==> IsWhitespace(pad[i])
    ensures ParseSelectors(pad + b) == ParseSelectors(b)
  {
    var r := Split(b, {','});
    assert r == [r[0]] + r[1..];
    assert NoneIn(pad, {','});
    SplitPrefix(pad, b, {','});
    TrimStartPadded(pad, r[0]);
    KeepTrimmedHead(pad + r[0], r[0], r[1..]);
  }

  /** A single selector parses to itself. */
  lemma ParseSelectorsSingle(s: string)
    requires Selector(s)
    ensures ParseSelectors(s) == [s]
  {
    SplitNoSeparator(s, {','});
  }

  /** A selector, ',' and padding in front of a list add that selector to its selectors. */
  lemma ParseSelectorsCons(head: string, pad: string, rest: string)
    requires Selector(head)
    requires forall i :: 0 <= i < |pad| ==> IsWhitespace(pad[i])
    ensures ParseSelectors(head + "," + (pad + rest)) == [head] + ParseSelectors(rest)
  {
    ParseSelectorsAppend(head, pad + rest);
    ParseSelectorsPadded(pad, rest);
    ParseSelectorsSingle(head);
  }

  /**
   * Joining selectors with ',' followed by any whitespace, and parsing the
   * result, gives the selectors back.
   */
  lemma {:induction false} ParseSelectorsJoin(sel: seq<string>, pad: string)
    requires forall i :: 0 <= i < |sel| ==> Selector(sel[i])
    requires forall i :: 0 <= i < |pad| ==> IsWhitespace(pad[i])
    ensures ParseSelectors(Join(sel, "," + pad)) == sel
  {
    if |sel| == 0 {
      ParseSelectorsEmpty();
    } else if |sel| == 1 {
      ParseSelectorsSingle(sel[0]);
    } else {
      JoinStep(sel, pad);
      TailSelectors(sel);
      ParseSelectorsJoin(sel[1..], pad);
      ParseSelectorsCons(sel[0], pad, Join(sel[1..], "," + pad));
    }
  }

  /** The first selector, ',' and the padding, then the join of the others. */
  lemma JoinStep(sel: seq<string>, pad: string)
    requires |sel| >= 2
    ensures Join(sel, "," + pad) == sel[0] + "," + (pad + Join(sel[1..], "," + pad))
  {
    var rest := Join(sel[1..], "," + pad);
    assert Join(sel, "," + pad) == sel[0] + ("," + pad) + rest;
  }

  /** The selectors after the first, as a list of their own. */
  lemma TailSelectors(sel: seq<string>)
    requires |sel| > 0 && forall i :: 0 <= i < |sel| ==> Selector(sel[i])
    ensures sel == [sel[0]] + sel[1..]
    ensures forall i :: 0 <= i < |sel[1..]| ==> Selector(sel[1..][i])
  {
    assert forall i :: 0 <= i < |sel[1..]| ==> sel[1..][i] == sel[i + 1];
  }

  /** The summary: "no selectors", or the selectors joined with ", ". */
  function Summary(selected: seq<string>): (r: string)
    ensures |selected| == 0 ==> r == "no selectors"
    ensures |selected| > 0 && (forall i :: 0 <= i < |selected| ==> Selector(selected[i])) ==>
      ParseSelectors(r) == selected
  {
    if |selected| == 0 then "no selectors"
    else if forall i :: 0 <= i < |selected| ==> Selector(selected[i]) then
      assert ", " == "," + " ";
      ParseSelectorsJoin(selected, " ");
      Join(selected, ", ")
    else Join(selected, ", ")
  }

  /** The text line the command prints. */
  function Report(enable: bool, selected: seq<string>): (r: string)
    ensures |r| > |Summary(selected)| + 13 && r[..11] == "Chunk mode " && (r[11] == 'e' <==> enable)
    ensures r[|r| - |Summary(selected)| - 3..] == " (" + Summary(selected) + ")"
  {
    var head := "Chunk mode " + (if enable then "enabled" else "disabled");
    var tail := " (" + Summary(selected) + ")";
    assert (head + tail)[|head|..] == tail;
    head + tail
  }

  /** `ChunkStatus`, the JSON status. */
  datatype ChunkStatus = ChunkStatus(active: bool, selectors: seq<string>)

  /** The status: the `enable` flag and the selectors parsed from the list. */
  function Status(enable: bool, csv: string): (s: ChunkStatus)
    ensures s.active == enable && s.selectors == ParseSelectors(csv)
  {
    ChunkStatus(enable, ParseSelectors(csv))
  }
}
