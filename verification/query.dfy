/**
  The two semantic-token requests: the whole document, and a range of it.
  The tokens of the document are supplied by the analysis, in document order.
*/
module Query {
  import opened Legend
  import opened Encoder
  import opened Wrappers

  datatype Position = Position(line: nat, character: nat)

  /** A requested window, from `start` to `end`. */
  datatype Range = Range(start: Position, end: Position)

  datatype QueryError = InvalidRange

  predicate PositionBefore(a: Position, b: Position)
  {
    a.line < b.line || (a.line == b.line && a.character < b.character)
  }

  /** A token belongs to a window when its line lies between the window's first and last line. */
  predicate InWindow(t: SemanticToken, w: Range)
  {
    w.start.line <= t.line <= w.end.line
  }

  /**
    The tokens of the window, in their original order. A token is kept or
    dropped whole; every copy of a kept token is kept.
  */
  function Clip(ts: seq<SemanticToken>, w: Range): (r: seq<SemanticToken>)
    ensures forall t :: multiset(r)[t] == if InWindow(t, w) then multiset(ts)[t] else 0
    decreases |ts|
  {
    if ts == [] then []
    else
      assert ts == [ts[0]] + ts[1..];
      (if InWindow(ts[0], w) then [ts[0]] else []) + Clip(ts[1..], w)
  }

  /** Clipping a concatenation clips each part. */
  lemma {:induction false} ClipAppend(a: seq<SemanticToken>, b: seq<SemanticToken>, w: Range)
    ensures Clip(a + b, w) == Clip(a, w) + Clip(b, w)
    decreases |a|
  {
    if a == [] {
      assert a + b == b;
    } else {
      assert (a + b)[0] == a[0] && (a + b)[1..] == a[1..] + b;
      ClipAppend(a[1..], b, w);
    }
  }

  /** Clipping a part that lies wholly inside the window keeps all of it. */
  lemma {:induction false} ClipInside(ts: seq<SemanticToken>, w: Range)
    requires forall k :: 0 <= k < |ts| ==> InWindow(ts[k], w)
    ensures Clip(ts, w) == ts
    decreases |ts|
  {
    if ts != [] {
      ClipInside(ts[1..], w);
      assert [ts[0]] + ts[1..] == ts;
    }
  }

  /** Clipping a part that lies wholly outside the window drops all of it. */
  lemma {:induction false} ClipOutside(ts: seq<SemanticToken>, w: Range)
    requires forall k :: 0 <= k < |ts| ==> !InWindow(ts[k], w)
    ensures Clip(ts, w) == []
    decreases |ts|
  {
    if ts != [] {
      ClipOutside(ts[1..], w);
    }
  }

  /**
    In a document whose tokens before the window lie on earlier lines and
    whose tokens after it lie on later lines, the window selects exactly
    the contiguous middle part.
  */
  lemma ClipSelectsMiddle(before: seq<SemanticToken>, inside: seq<SemanticToken>, after: seq<SemanticToken>, w: Range)
    requires forall k :: 0 <= k < |before| ==> before[k].line < w.start.line
    requires forall k :: 0 <= k < |inside| ==> InWindow(inside[k], w)
    requires forall k :: 0 <= k < |after| ==> after[k].line > w.end.line
    ensures Clip(before + inside + after, w) == inside
  {
    ClipAppend(before + inside, after, w);
    ClipAppend(before, inside, w);
    ClipOutside(before, w);
    ClipInside(inside, w);
    ClipOutside(after, w);
  }

  /** Document order, stated for every pair rather than for neighbours. */
  lemma {:induction false} InOrderPairwise(ts: seq<SemanticToken>, i: nat, j: nat)
    requires InDocumentOrder(ts) && i <= j < |ts|
    ensures StartsNoLaterThan(ts[i], ts[j])
    decreases j - i
  {
    if i < j {
      InOrderPairwise(ts, i + 1, j);
      assert StartsNoLaterThan(ts[i], ts[i + 1]);
    }
  }

  /** Clipping keeps document order, so the range response has non-negative deltas too. */
  lemma {:induction false} ClipKeepsOrder(ts: seq<SemanticToken>, w: Range)
    requires InDocumentOrder(ts)
    ensures InDocumentOrder(Clip(ts, w))
    decreases |ts|
  {
    if ts != [] {
      var rest := Clip(ts[1..], w);
      assert InDocumentOrder(ts[1..]) by {
        forall k | 0 < k < |ts[1..]| ensures StartsNoLaterThan(ts[1..][k - 1], ts[1..][k]) {
          assert ts[1..][k - 1] == ts[k] && ts[1..][k] == ts[k + 1];
        }
      }
      ClipKeepsOrder(ts[1..], w);
      if InWindow(ts[0], w) && rest != [] {
        assert rest[0] in multiset(rest);
        assert rest[0] in multiset(ts[1..]);
        var j :| 0 <= j < |ts[1..]| && ts[1..][j] == rest[0];
        InOrderPairwise(ts, 0, j + 1);
        var r := [ts[0]] + rest;
        forall k | 0 < k < |r| ensures StartsNoLaterThan(r[k - 1], r[k]) {
          if k > 1 {
            assert r[k - 1] == rest[k - 2] && r[k] == rest[k - 1];
          }
        }
      }
    }
  }

  /** The full-document request: every token of the document, encoded. */
  function SemanticTokensFull(L: Legend, doc: seq<SemanticToken>): (r: seq<int>)
    requires L.Valid()
    ensures |r| == 5 * |doc|
    ensures DecodeTokens(L, r) == Some(doc)
  {
    RoundTrip(L, doc);
    EncodeTokens(L, doc)
  }

  /**
    The range request: the tokens of the window, encoded on their own from a
    fresh cursor. A window whose end comes before its start is an error.
  */
  function SemanticTokensRange(L: Legend, doc: seq<SemanticToken>, w: Range): (r: Result<seq<int>, QueryError>)
    requires L.Valid()
    ensures r.Failure? <==> PositionBefore(w.end, w.start)
    ensures r.Success? ==> DecodeTokens(L, r.value) == Some(Clip(doc, w))
  {
    if PositionBefore(w.end, w.start) then Failure(InvalidRange)
    else
      RoundTrip(L, Clip(doc, w));
      Success(EncodeTokens(L, Clip(doc, w)))
  }

  /**
    The range response restarts the cursor: its first record holds the first
    selected token's absolute line and column, not deltas from the token
    before it in the document; from its second record on it coincides with
    the full response.
  */
  lemma RangeRestartsCursor(L: Legend, before: seq<SemanticToken>, inside: seq<SemanticToken>, after: seq<SemanticToken>, w: Range)
    requires L.Valid() && !PositionBefore(w.end, w.start)
    requires Clip(before + inside + after, w) == inside && inside != []
    ensures var part := SemanticTokensRange(L, before + inside + after, w).value;
      var full := SemanticTokensFull(L, before + inside + after);
      && Field(part, 0, 0) == inside[0].line
      && Field(part, 0, 1) == inside[0].startCol
      && part[5..] == full[5 * |before| + 5 .. 5 * |before| + 5 * |inside|]
  {
    var doc := before + inside + after;
    var part := EncodeTokens(L, inside);
    EncodeAt(L, inside, 0);
    var c := Cursor(0, 0, before);
    EncodeAppend(L, 0, 0, before + inside, after);
    EncodeAppend(L, 0, 0, before, inside);
    var mid := EncodeFrom(L, c.0, c.1, inside);
    var full := EncodeTokens(L, doc);
    assert full[5 * |before| .. 5 * |before| + 5 * |inside|] == mid;
    assert mid[5..] == EncodeFrom(L, inside[0].line, inside[0].startCol, inside[1..]) == part[5..];
  }
}
