/** The marked-block updater of the `%%writeandexecute` cell magic, on line
    sequences. A file holds at most one block per identifier, bracketed by two
    marker lines `# -- ==<identifier>== --`; an update either replaces that
    block in place or appends a new one, and refuses a file in which the
    marker occurs a third time.

    The scan itself only compares stripped lines with one marker line `m`,
    so everything below except `Marker` and the lemmas that name it is
    stated for an arbitrary marker line. */
module MarkedBlocks {
  import opened Wrappers
  import opened PyLib

  /** First line written to a file that did not exist. */
  const Header: string := "# -*- coding: utf-8 -*-\n\n"

  /** The line that opens and closes the block named `identifier`: the
      identifier between the fixed opening `# -- ==` and closing `== --`, so
      it can be read back from the marker. */
  function Marker(identifier: string): (r: string)
    ensures |r| == |identifier| + 12
    ensures r[..7] == "# -- ==" && r[7..7 + |identifier|] == identifier && r[7 + |identifier|..] == "== --"
  {
    var r := "# -- ==" + identifier + "== --";
    assert r[..7] == "# -- ==";
    assert r[7..7 + |identifier|] == identifier;
    assert r[7 + |identifier|..] == "== --";
    r
  }

  /** A line is the marker line `m` when, stripped of surrounding
      whitespace, it is exactly `m`. */
  predicate IsMarkerLine(line: string, m: string)
  {
    Strip(line) == m
  }

  /** The lines of a file that did not exist before the update: the header,
      then a block whose only marker lines are at 1 and 3. */
  function NewFile(m: string, content: string): (r: seq<string>)
    ensures Strip(m) == m && !IsMarkerLine(Header, m) && !IsMarkerLine(content, m)
            ==> Markers(r, m) == [1, 3]
  {
    var r := [Header, m, content, m];
    if Strip(m) == m && !IsMarkerLine(Header, m) && !IsMarkerLine(content, m) then
      MarkersExactlyTwo(r, m, 1, 3);
      r
    else r
  }

  /** The group appended to a file that has no block for the marker: a
      blank line, a block whose only marker lines are at 1 and 3, and a
      blank line. */
  function Appendix(m: string, content: string): (r: seq<string>)
    ensures Strip(m) == m && m != [] && !IsMarkerLine(content, m) ==> Markers(r, m) == [1, 3]
  {
    var r := ["\n", m, content, m, "\n"];
    if Strip(m) == m && m != [] && !IsMarkerLine(content, m) then
      NewlineIsPlainLine(m);
      MarkersExactlyTwo(r, m, 1, 3);
      r
    else r
  }

  /** The positions of `keys` that hold `m`, in increasing order (see
      `PositionsSpec`). */
  function Positions(keys: seq<string>, m: string): seq<nat>
  {
    if keys == [] then []
    else
      var r := Positions(keys[..|keys| - 1], m);
      if keys[|keys| - 1] == m then r + [|keys| - 1] else r
  }

  /** Every line stripped of surrounding whitespace. */
  function StripAll(lines: seq<string>): seq<string>
  {
    seq(|lines|, k requires 0 <= k < |lines| => Strip(lines[k]))
  }

  /** The 0-based positions of the lines marked `m`, in order. */
  function Markers(lines: seq<string>, m: string): seq<nat>
  {
    Positions(StripAll(lines), m)
  }

  /** What the scan has emitted after reading `lines`, provided it has met at
      most two markers: the lines before the first marker, then the marker
      and the new content in place of the old block, then, once the block
      is closed, the closing marker line as read and every later line. */
  function Kept(lines: seq<string>, m: string, content: string): seq<string>
    requires |Markers(lines, m)| <= 2
  {
    MarkersSpec(lines, m);
    var idx := Markers(lines, m);
    if |idx| == 0 then lines
    else if |idx| == 1 then lines[..idx[0]] + [m, content]
    else lines[..idx[0]] + [m, content] + lines[idx[1]..]
  }

  /** The new lines of an existing file, or the 1-based number of the line
      holding a third marker. The update succeeds exactly when the file has
      at most two marker lines. */
  function Merge(lines: seq<string>, m: string, content: string): (r: Result<seq<string>, nat>)
    ensures r.Ok? <==> |Markers(lines, m)| <= 2
    ensures r.Err? ==> 1 <= r.error <= |lines| && IsMarkerLine(lines[r.error - 1], m)
  {
    MarkersSpec(lines, m);
    var idx := Markers(lines, m);
    if |idx| > 2 then Err(idx[2] + 1)
    else if |idx| == 0 then Ok(lines + Appendix(m, content))
    else Ok(Kept(lines, m, content))
  }

  /** The lines strictly between the first two markers. */
  function ReadBlock(lines: seq<string>, m: string): Option<seq<string>>
  {
    MarkersSpec(lines, m);
    var idx := Markers(lines, m);
    if |idx| >= 2 then Some(lines[idx[0] + 1..idx[1]]) else None
  }

  /** The scan over the lines of an existing file, driven by the two flags
      `inBlock` (inside the block being replaced) and `included` (the new
      content has been emitted). */
  method MergeLines(lines: seq<string>, m: string, content: string)
    returns (r: Result<seq<string>, nat>)
    ensures r == Merge(lines, m, content)
  {
    var out: seq<string> := [];
    var inBlock := false;
    var included := false;
    var lineno := 0;
    while lineno < |lines|
      invariant lineno <= |lines|
      invariant |Markers(lines[..lineno], m)| <= 2
      invariant included == (|Markers(lines[..lineno], m)| >= 1)
      invariant inBlock == (|Markers(lines[..lineno], m)| == 1)
      invariant out == Kept(lines[..lineno], m, content)
    {
      var line := lines[lineno];
      ghost var before := lines[..lineno];
      lineno := lineno + 1;
      assert lines[..lineno] == before + [line];
      if Strip(line) == m {
        if included && !inBlock {
          MarkersSnoc(before, line, m);
          MarkersTake(lines, lineno, m);
          return Err(lineno);
        }
        inBlock := !inBlock;
        if !included {
          out := out + [m, content];
          included := true;
        }
      }
      if !inBlock {
        out := out + [line];
      }
      KeptSnoc(before, line, m, content);
    }
    assert lines[..lineno] == lines;
    if !included {
      out := out + ["\n", m, content, m, "\n"];
    }
    return Ok(out);
  }

  /** How reading one more line changes what the scan has emitted: an
      opening marker adds the canonical marker and the content, a closing
      marker adds itself, and any other line is added unless it lies inside
      the block. */
  lemma KeptSnoc(lines: seq<string>, line: string, m: string, content: string)
    requires |Markers(lines, m)| <= 2
    requires |Markers(lines, m)| == 2 ==> !IsMarkerLine(line, m)
    ensures |Markers(lines + [line], m)| <= 2
    ensures |Markers(lines + [line], m)|
         == |Markers(lines, m)| + (if IsMarkerLine(line, m) then 1 else 0)
    ensures Kept(lines + [line], m, content)
         == if IsMarkerLine(line, m) && |Markers(lines, m)| == 0 then Kept(lines, m, content) + [m, content]
            else if !IsMarkerLine(line, m) && |Markers(lines, m)| == 1 then Kept(lines, m, content)
            else Kept(lines, m, content) + [line]
  {
    var l := lines + [line];
    MarkersSnoc(lines, line, m);
    MarkersSpec(lines, m);
    var idx := Markers(lines, m);
    if |idx| >= 1 {
      assert l[..idx[0]] == lines[..idx[0]];
    }
    if |idx| == 1 && IsMarkerLine(line, m) {
      assert l[|lines|..] == [line];
    }
    if |idx| == 2 {
      assert l[idx[1]..] == lines[idx[1]..] + [line];
    }
  }

  /** `ns` with `d` added to every element. */
  function Shift(ns: seq<nat>, d: nat): seq<nat>
  {
    seq(|ns|, u requires 0 <= u < |ns| => ns[u] + d)
  }

  /** `Positions` lists every position holding `m`, only those, each once
      and in increasing order. */
  lemma {:induction false} PositionsSpec(keys: seq<string>, m: string)
    ensures var r := Positions(keys, m);
            && (forall u :: 0 <= u < |r| ==> r[u] < |keys| && keys[r[u]] == m)
            && (forall u, v :: 0 <= u < v < |r| ==> r[u] < r[v])
            && (forall k :: 0 <= k < |keys| && keys[k] == m ==> k in r)
  {
    if keys != [] {
      var init := keys[..|keys| - 1];
      PositionsSpec(init, m);
      assert forall k :: 0 <= k < |init| ==> init[k] == keys[k];
    }
  }

  /** Keys that never hold `m` have no positions. */
  lemma {:induction false} PositionsNone(keys: seq<string>, m: string)
    requires forall k :: 0 <= k < |keys| ==> keys[k] != m
    ensures Positions(keys, m) == []
  {
    if keys != [] {
      PositionsNone(keys[..|keys| - 1], m);
    }
  }

  lemma ShiftAppend(s: seq<nat>, t: seq<nat>, d: nat)
    ensures Shift(s + t, d) == Shift(s, d) + Shift(t, d)
  {
  }

  /** Reading one more key adds its position when it is `m`. */
  lemma PositionsSnoc(keys: seq<string>, key: string, m: string)
    ensures Positions(keys + [key], m) == Positions(keys, m) + (if key == m then [|keys|] else [])
  {
  }

  /** Positions in a concatenation: those in the first part, then those in
      the second part moved past the first. */
  lemma {:induction false} PositionsConcat(a: seq<string>, b: seq<string>, m: string)
    ensures Positions(a + b, m) == Positions(a, m) + Shift(Positions(b, m), |a|)
  {
    if b == [] {
      assert a + b == a;
    } else {
      var init, x := b[..|b| - 1], b[|b| - 1];
      PositionsConcat(a, init, m);
      assert a + b == (a + init) + [x];
      assert b == init + [x];
      PositionsSnoc(a + init, x, m);
      PositionsSnoc(init, x, m);
      var e: seq<nat> := if x == m then [|init|] else [];
      ShiftAppend(Positions(init, m), e, |a|);
      assert Shift(e, |a|) == if x == m then [|a + init|] else [];
    }
  }

  /** The positions in a prefix begin the positions in the whole. */
  lemma {:induction false} PositionsPrefix(keys: seq<string>, k: nat, m: string)
    requires k <= |keys|
    ensures Positions(keys[..k], m) <= Positions(keys, m)
  {
    if k < |keys| {
      var n := |keys| - 1;
      assert keys[..n][..k] == keys[..k];
      PositionsPrefix(keys[..n], k, m);
      assert keys == keys[..n] + [keys[n]];
      PositionsSnoc(keys[..n], keys[n], m);
    } else {
      assert keys[..k] == keys;
    }
  }

  /** A prefix of `k` keys holds exactly the positions that lie before `k`. */
  lemma PositionsTake(keys: seq<string>, k: nat, m: string)
    requires k <= |keys|
    ensures var p := Positions(keys[..k], m);
            var idx := Positions(keys, m);
            p <= idx && forall u :: 0 <= u < |idx| ==> (u < |p| <==> idx[u] < k)
  {
    var p := Positions(keys[..k], m);
    var idx := Positions(keys, m);
    PositionsPrefix(keys, k, m);
    PositionsSpec(keys, m);
    PositionsSpec(keys[..k], m);
    forall u | 0 <= u < |idx| && idx[u] < k
      ensures u < |p|
    {
      assert keys[..k][idx[u]] == keys[idx[u]];
      var v :| 0 <= v < |p| && p[v] == idx[u];
      assert idx[v] == idx[u];
    }
  }

  /** Stripping distributes over concatenation. */
  lemma StripAllConcat(a: seq<string>, b: seq<string>)
    ensures StripAll(a + b) == StripAll(a) + StripAll(b)
  {
  }

  /** Stripping commutes with taking a prefix. */
  lemma StripAllTake(lines: seq<string>, k: nat)
    requires k <= |lines|
    ensures StripAll(lines[..k]) == StripAll(lines)[..k]
  {
  }

  /** Reading one more line adds its position when it is a marker. */
  lemma MarkersSnoc(lines: seq<string>, line: string, m: string)
    ensures Markers(lines + [line], m)
         == Markers(lines, m) + (if IsMarkerLine(line, m) then [|lines|] else [])
  {
    StripAllConcat(lines, [line]);
    PositionsSnoc(StripAll(lines), Strip(line), m);
  }

  /** Marker positions of a concatenation. */
  lemma MarkersConcat(a: seq<string>, b: seq<string>, m: string)
    ensures Markers(a + b, m) == Markers(a, m) + Shift(Markers(b, m), |a|)
  {
    StripAllConcat(a, b);
    PositionsConcat(StripAll(a), StripAll(b), m);
  }

  /** The marker positions of the first `k` lines are exactly the marker
      positions of the whole file that lie before `k`. */
  lemma MarkersTake(lines: seq<string>, k: nat, m: string)
    requires k <= |lines|
    ensures var p := Markers(lines[..k], m);
            var idx := Markers(lines, m);
            p <= idx && forall u :: 0 <= u < |idx| ==> (u < |p| <==> idx[u] < k)
  {
    StripAllTake(lines, k);
    PositionsTake(StripAll(lines), k, m);
  }

  /** The marker positions are those of the marker lines, each once and in
      increasing order. */
  lemma MarkersSpec(lines: seq<string>, m: string)
    ensures var r := Markers(lines, m);
            && (forall u :: 0 <= u < |r| ==> r[u] < |lines| && IsMarkerLine(lines[r[u]], m))
            && (forall u, v :: 0 <= u < v < |r| ==> r[u] < r[v])
            && (forall k :: 0 <= k < |lines| && IsMarkerLine(lines[k], m) ==> k in r)
  {
    var keys := StripAll(lines);
    PositionsSpec(keys, m);
    assert forall k :: 0 <= k < |lines| ==> (keys[k] == m <==> IsMarkerLine(lines[k], m));
  }

  /** A file without marker lines has no marker positions. */
  lemma MarkersNone(lines: seq<string>, m: string)
    requires forall k :: 0 <= k < |lines| ==> !IsMarkerLine(lines[k], m)
    ensures Markers(lines, m) == []
  {
    PositionsNone(StripAll(lines), m);
  }

  /** A file whose only marker line is at `i` has the marker positions `[i]`. */
  lemma MarkersExactlyOne(lines: seq<string>, m: string, i: nat)
    requires i < |lines|
    requires IsMarkerLine(lines[i], m)
    requires forall k :: 0 <= k < |lines| && k != i ==> !IsMarkerLine(lines[k], m)
    ensures Markers(lines, m) == [i]
  {
    var before, after := lines[..i], lines[i + 1..];
    assert lines == (before + [lines[i]]) + after;
    MarkersNone(before, m);
    MarkersNone(after, m);
    MarkersSnoc(before, lines[i], m);
    MarkersConcat(before + [lines[i]], after, m);
  }

  /** A file whose only marker lines are at `i < j` has the marker positions
      `[i, j]`. */
  lemma MarkersExactlyTwo(lines: seq<string>, m: string, i: nat, j: nat)
    requires i < j < |lines|
    requires IsMarkerLine(lines[i], m) && IsMarkerLine(lines[j], m)
    requires forall k :: 0 <= k < |lines| && k != i && k != j ==> !IsMarkerLine(lines[k], m)
    ensures Markers(lines, m) == [i, j]
  {
    var head, after := lines[..j], lines[j + 1..];
    assert lines == (head + [lines[j]]) + after;
    MarkersExactlyOne(head, m, i);
    MarkersNone(after, m);
    MarkersSnoc(head, lines[j], m);
    MarkersConcat(head + [lines[j]], after, m);
  }

  /** A blank separator line is never a marker line. */
  lemma NewlineIsPlainLine(m: string)
    requires Strip(m) == m && m != []
    ensures !IsMarkerLine("\n", m)
  {
    assert "\n"[0] in Whitespace;
    assert RStrip("\n") == RStrip([]);
  }

  /** A marker line is its own strip. */
  lemma MarkerIsStripped(identifier: string)
    ensures Strip(Marker(identifier)) == Marker(identifier)
  {
    var m := Marker(identifier);
    assert m[0] == '#' && m[|m| - 1] == '-';
    StripUnpadded(m);
  }

  /** Two identifiers with the same marker are equal, so blocks of different
      identifiers never share markers. */
  lemma MarkerInjective(a: string, b: string)
    requires Marker(a) == Marker(b)
    ensures a == b
  {
    assert a == Marker(a)[7..7 + |a|];
    assert b == Marker(b)[7..7 + |b|];
  }

  /** The header of a new file is not a marker line of any identifier. */
  lemma HeaderIsPlainLine(identifier: string)
    ensures !IsMarkerLine(Header, Marker(identifier))
  {
    StripIsPrefix(Header);
    var h := Strip(Header);
    var mk := Marker(identifier);
    assert |mk| > 3 && mk[3] == '-';
    assert |h| > 3 ==> h[3] == '*';
  }

  /** A missing file becomes the header, the opening marker, the content
      once and the closing marker; its block reads back as the content. */
  lemma NewFileBlock(identifier: string, content: string)
    requires !IsMarkerLine(content, Marker(identifier))
    ensures var f := NewFile(Marker(identifier), content);
            Markers(f, Marker(identifier)) == [1, 3] && ReadBlock(f, Marker(identifier)) == Some([content])
  {
    var m := Marker(identifier);
    HeaderIsPlainLine(identifier);
    MarkerIsStripped(identifier);
    var f := NewFile(m, content);
    MarkersExactlyTwo(f, m, 1, 3);
    assert f[2..3] == [content];
  }

  /** A file with no marker keeps all its lines, in order, and gains a
      blank line, the marked block and a blank line at the end. */
  lemma AppendWhenNoMarker(lines: seq<string>, m: string, content: string)
    requires forall k :: 0 <= k < |lines| ==> !IsMarkerLine(lines[k], m)
    ensures Merge(lines, m, content) == Ok(lines + ["\n", m, content, m, "\n"])
  {
    MarkersNone(lines, m);
  }

  /** With exactly two markers, at `i < j`, the block is replaced where it
      stands: the lines before it and from the closing marker on are kept as
      they were, the old block lines are dropped, and the opening marker is
      rewritten in canonical form while the closing one keeps its text. */
  lemma ReplaceBlock(lines: seq<string>, m: string, content: string, i: nat, j: nat)
    requires i < j < |lines|
    requires IsMarkerLine(lines[i], m) && IsMarkerLine(lines[j], m)
    requires forall k :: 0 <= k < |lines| && k != i && k != j ==> !IsMarkerLine(lines[k], m)
    ensures Merge(lines, m, content) == Ok(lines[..i] + [m, content] + [lines[j]] + lines[j + 1..])
  {
    MarkersExactlyTwo(lines, m, i, j);
    assert lines[..i] + [m, content] + lines[j..] == lines[..i] + [m, content] + [lines[j]] + lines[j + 1..];
  }

  /** An opening marker that is never closed is not an error: everything
      from it to the end of the file is dropped, the output ends with the
      marker and the content, and nothing is appended. */
  lemma UnterminatedBlock(lines: seq<string>, m: string, content: string, i: nat)
    requires i < |lines|
    requires IsMarkerLine(lines[i], m)
    requires forall k :: 0 <= k < |lines| && k != i ==> !IsMarkerLine(lines[k], m)
    ensures Merge(lines, m, content) == Ok(lines[..i] + [m, content])
  {
    MarkersExactlyOne(lines, m, i);
  }

  /** The update fails with line number `n` exactly when line `n` (counted
      from 1) is a marker and two markers precede it. */
  lemma ThirdMarkerError(lines: seq<string>, m: string, content: string, n: nat)
    ensures Merge(lines, m, content) == Err(n)
        <==> 1 <= n <= |lines| && IsMarkerLine(lines[n - 1], m) && |Markers(lines[..n - 1], m)| == 2
  {
    if Merge(lines, m, content) == Err(n) {
      var idx := Markers(lines, m);
      MarkersSpec(lines, m);
      assert idx[2] < |lines| && IsMarkerLine(lines[idx[2]], m);
      assert idx[0] < idx[1] < idx[2];
      MarkersTake(lines, n - 1, m);
    }
    if 1 <= n <= |lines| && IsMarkerLine(lines[n - 1], m) && |Markers(lines[..n - 1], m)| == 2 {
      assert lines[..n] == lines[..n - 1] + [lines[n - 1]];
      MarkersSnoc(lines[..n - 1], lines[n - 1], m);
      MarkersTake(lines, n, m);
    }
  }

  /** No marker precedes the first one. */
  lemma MarkersBeforeFirst(lines: seq<string>, m: string)
    requires |Markers(lines, m)| >= 1
    ensures var i := Markers(lines, m)[0];
            i < |lines| && Markers(lines[..i], m) == []
  {
    var idx := Markers(lines, m);
    MarkersSpec(lines, m);
    MarkersTake(lines, idx[0], m);
  }

  /** From the second marker on, a file with exactly two markers has only
      that one. */
  lemma MarkersFromSecond(lines: seq<string>, m: string)
    requires |Markers(lines, m)| == 2
    ensures var j := Markers(lines, m)[1];
            Markers(lines, m)[0] < j < |lines| && Markers(lines[j..], m) == [0]
  {
    var idx := Markers(lines, m);
    MarkersSpec(lines, m);
    var i, j := idx[0], idx[1];
    MarkersTake(lines, j, m);
    assert Markers(lines[..j], m) == [i];
    assert lines == lines[..j] + lines[j..];
    MarkersConcat(lines[..j], lines[j..], m);
    var mt := Markers(lines[j..], m);
    assert [i] + Shift(mt, j) == [i, j];
    assert Shift(mt, j) == [j];
  }

  /** The opening marker and the content, after marker-free lines, add one
      marker position. */
  lemma MarkersOfHead(pre: seq<string>, m: string, content: string)
    requires Strip(m) == m
    requires !IsMarkerLine(content, m)
    requires Markers(pre, m) == []
    ensures Markers(pre + [m, content], m) == [|pre|]
  {
    assert pre + [m, content] == pre + [m] + [content];
    MarkersSnoc(pre, m, m);
    MarkersSnoc(pre + [m], content, m);
  }

  /** The markers of a file that gained an appended block. */
  lemma MergedMarkersAppended(lines: seq<string>, m: string, content: string)
    requires Strip(m) == m && m != []
    requires !IsMarkerLine(content, m)
    requires Markers(lines, m) == []
    ensures Merge(lines, m, content) == Ok(lines + Appendix(m, content))
    ensures Markers(lines + Appendix(m, content), m) == [|lines| + 1, |lines| + 3]
  {
    NewlineIsPlainLine(m);
    MarkersExactlyTwo(Appendix(m, content), m, 1, 3);
    MarkersConcat(lines, Appendix(m, content), m);
    assert Shift([1, 3], |lines|) == [|lines| + 1, |lines| + 3];
  }

  /** The markers of a file whose block was replaced: the opening marker
      where it stood, and the closing marker two lines on when there was
      one. */
  lemma MergedMarkersReplaced(lines: seq<string>, m: string, content: string)
    requires Strip(m) == m
    requires !IsMarkerLine(content, m)
    requires 1 <= |Markers(lines, m)| <= 2
    ensures var idx := Markers(lines, m);
            var out := Merge(lines, m, content).value;
            var i := idx[0];
            Merge(lines, m, content).Ok? && i < |lines| && i + 1 < |out| && out[..i] == lines[..i]
            && out[i] == m && out[i + 1] == content
            && Markers(out, m) == if |idx| == 1 then [i] else [i, i + 2]
  {
    var idx := Markers(lines, m);
    var out := Merge(lines, m, content).value;
    var i := idx[0];
    MarkersBeforeFirst(lines, m);
    var head := lines[..i] + [m, content];
    MarkersOfHead(lines[..i], m, content);
    if |idx| == 2 {
      var j := idx[1];
      MarkersFromSecond(lines, m);
      assert out == head + lines[j..];
      MarkersConcat(head, lines[j..], m);
      assert Shift([0], |head|) == [i + 2];
    }
  }

  /** Where the markers of an updated file are: a pair around the new
      content, or the opening marker alone when the old block was never
      closed. */
  lemma MergedMarkers(lines: seq<string>, m: string, content: string)
    requires Strip(m) == m && m != []
    requires !IsMarkerLine(content, m)
    requires Merge(lines, m, content).Ok?
    ensures var out := Merge(lines, m, content).value;
            var idx := Markers(lines, m);
            var p := if idx == [] then |lines| + 1 else idx[0];
            p + 1 < |out| && out[p] == m && out[p + 1] == content
            && Markers(out, m) == if |idx| == 1 then [p] else [p, p + 2]
  {
    if Markers(lines, m) == [] {
      MergedMarkersAppended(lines, m, content);
    } else {
      MergedMarkersReplaced(lines, m, content);
    }
  }

  /** Running the update again on its own output, with the same marker and
      content, changes nothing. */
  lemma MergeIdempotent(lines: seq<string>, m: string, content: string)
    requires Strip(m) == m && m != []
    requires !IsMarkerLine(content, m)
    requires Merge(lines, m, content).Ok?
    ensures var out := Merge(lines, m, content).value;
            Merge(out, m, content) == Ok(out)
  {
    var idx := Markers(lines, m);
    var out := Merge(lines, m, content).value;
    MarkersSpec(lines, m);
    MergedMarkers(lines, m, content);
    if idx == [] {
      var p := |lines| + 1;
      assert out[..p] == lines + ["\n"];
      assert out[p + 2..] == [m, "\n"];
      assert out == out[..p] + [m, content] + out[p + 2..];
    } else if |idx| == 1 {
      assert out[..idx[0]] == lines[..idx[0]];
    } else {
      var i, j := idx[0], idx[1];
      assert out[..i] == lines[..i];
      assert out[i + 2..] == lines[j..];
    }
  }

  /** A new file is already in the form the update keeps. */
  lemma NewFileStable(identifier: string, content: string)
    requires !IsMarkerLine(content, Marker(identifier))
    ensures var f := NewFile(Marker(identifier), content);
            Merge(f, Marker(identifier), content) == Ok(f)
  {
    NewFileBlock(identifier, content);
    var f := NewFile(Marker(identifier), content);
    assert f == f[..1] + [Marker(identifier), content] + f[3..];
  }

  /** After an update that leaves a closed block, the block reads back as
      exactly the new content. */
  lemma BlockRoundTrip(lines: seq<string>, m: string, content: string)
    requires Strip(m) == m && m != []
    requires !IsMarkerLine(content, m)
    requires Merge(lines, m, content).Ok?
    requires |Markers(lines, m)| != 1
    ensures ReadBlock(Merge(lines, m, content).value, m) == Some([content])
  {
    var out := Merge(lines, m, content).value;
    if Markers(lines, m) == [] {
      MergedMarkersAppended(lines, m, content);
      var p := |lines| + 1;
      assert out[p + 1..p + 2] == [content];
    } else {
      MergedMarkersReplaced(lines, m, content);
      var p := Markers(lines, m)[0];
      assert out[p + 1..p + 2] == [content];
    }
  }

  /** Lines appended after a complete block do not change what it reads. */
  lemma ReadBlockPrefix(a: seq<string>, b: seq<string>, m: string)
    requires |Markers(a, m)| >= 2
    ensures ReadBlock(a + b, m) == ReadBlock(a, m)
  {
    var ma := Markers(a, m);
    MarkersSpec(a, m);
    MarkersConcat(a, b, m);
    assert (a + b)[ma[0] + 1..ma[1]] == a[ma[0] + 1..ma[1]];
  }

  /** Lines without markers put in front of a file do not change what its
      block reads. */
  lemma ReadBlockSuffix(a: seq<string>, b: seq<string>, m: string)
    requires Markers(a, m) == []
    ensures ReadBlock(a + b, m) == ReadBlock(b, m)
  {
    var mb := Markers(b, m);
    MarkersSpec(b, m);
    MarkersConcat(a, b, m);
    if |mb| >= 2 {
      assert (a + b)[mb[0] + |a| + 1..mb[1] + |a|] == b[mb[0] + 1..mb[1]];
    }
  }

  /** A block that closes before the updated block opens reads the same
      afterwards. */
  lemma OtherBlockBefore(lines: seq<string>, m: string, mo: string, content: string)
    requires 1 <= |Markers(lines, m)| <= 2
    requires |Markers(lines, mo)| >= 2 && Markers(lines, mo)[1] < Markers(lines, m)[0]
    ensures ReadBlock(Merge(lines, m, content).value, mo) == ReadBlock(lines, mo)
  {
    var i := Markers(lines, m)[0];
    var out := Merge(lines, m, content).value;
    MarkersBeforeFirst(lines, m);
    MarkersTake(lines, i, mo);
    assert out == lines[..i] + out[i..];
    assert lines == lines[..i] + lines[i..];
    ReadBlockPrefix(lines[..i], out[i..], mo);
    ReadBlockPrefix(lines[..i], lines[i..], mo);
  }

  /** A block that opens after the updated block closes reads the same
      afterwards. */
  lemma OtherBlockAfter(lines: seq<string>, m: string, mo: string, content: string)
    requires !IsMarkerLine(m, mo) && !IsMarkerLine(content, mo)
    requires |Markers(lines, m)| == 2
    requires |Markers(lines, mo)| >= 2 && Markers(lines, m)[1] < Markers(lines, mo)[0]
    ensures ReadBlock(Merge(lines, m, content).value, mo) == ReadBlock(lines, mo)
  {
    var i, j := Markers(lines, m)[0], Markers(lines, m)[1];
    var out := Merge(lines, m, content).value;
    MarkersFromSecond(lines, m);
    var head := lines[..i] + [m, content];
    var tail := lines[j..];
    assert out == head + tail;
    assert lines == lines[..j] + tail;
    MarkersTake(lines, i, mo);
    MarkersTake(lines, j, mo);
    MarkersNone([m, content], mo);
    MarkersConcat(lines[..i], [m, content], mo);
    ReadBlockSuffix(head, tail, mo);
    ReadBlockSuffix(lines[..j], tail, mo);
  }

  /** Updating the block of `identifier` leaves the block of any `other`
      identifier as it was, when the two blocks do not overlap: the other
      block closes before the target block opens, or opens after it closes,
      or the target has no block yet. */
  lemma OtherBlockUntouched(lines: seq<string>, identifier: string, other: string, content: string)
    requires identifier != other
    requires !IsMarkerLine(content, Marker(other))
    requires Merge(lines, Marker(identifier), content).Ok?
    requires |Markers(lines, Marker(other))| >= 2
    requires var t := Markers(lines, Marker(identifier));
             var o := Markers(lines, Marker(other));
             t == [] || o[1] < t[0] || (|t| == 2 && t[1] < o[0])
    ensures var out := Merge(lines, Marker(identifier), content).value;
            ReadBlock(out, Marker(other)) == ReadBlock(lines, Marker(other))
  {
    var m, mo := Marker(identifier), Marker(other);
    var t := Markers(lines, m);
    var o := Markers(lines, mo);
    if t == [] {
      ReadBlockPrefix(lines, Appendix(m, content), mo);
    } else if o[1] < t[0] {
      OtherBlockBefore(lines, m, mo, content);
    } else {
      MarkerIsStripped(identifier);
      if m == mo {
        MarkerInjective(identifier, other);
      }
      OtherBlockAfter(lines, m, mo, content);
    }
  }
}
