/**
  The delta encoder of semantic tokens (`encodeTokens`) and its inverse.

  Each token becomes five integers,
  `[deltaLine, deltaStartCol, length, typeIndex, modifierMask]`, with its
  position given relative to the token before it; the cursor starts at
  line 0, column 0.
*/
module Encoder {
  import opened Legend
  import opened Wrappers

  /**
    A semantic token: a range on one line, a type and a set of modifiers.
    A token built without modifiers has the empty modifier set.
  */
  datatype SemanticToken = SemanticToken(
    line: nat,
    startCol: nat,
    endCol: nat,
    tokenType: TokenType,
    modifiers: set<TokenModifier> := {})

  /** A well-formed token covers at least one column. */
  predicate WellFormed(t: SemanticToken)
  {
    t.startCol < t.endCol
  }

  /** Token a starts no later than token b: by line, then by start column. */
  predicate StartsNoLaterThan(a: SemanticToken, b: SemanticToken)
  {
    a.line < b.line || (a.line == b.line && a.startCol <= b.startCol)
  }

  /** The tokens are ordered by start position (equal starts allowed: nested tokens). */
  predicate InDocumentOrder(ts: seq<SemanticToken>)
  {
    forall k :: 0 < k < |ts| ==> StartsNoLaterThan(ts[k - 1], ts[k])
  }

  /** Two ordered sequences joined where the first ends no later than the second starts stay ordered. */
  lemma InOrderAppend(a: seq<SemanticToken>, b: seq<SemanticToken>)
    requires InDocumentOrder(a) && InDocumentOrder(b)
    requires a != [] && b != [] ==> StartsNoLaterThan(a[|a| - 1], b[0])
    ensures InDocumentOrder(a + b)
  {
    forall k | 0 < k < |a + b| ensures StartsNoLaterThan((a + b)[k - 1], (a + b)[k]) {
      if k < |a| {
        assert (a + b)[k - 1] == a[k - 1] && (a + b)[k] == a[k];
      } else if k == |a| {
        assert (a + b)[k - 1] == a[|a| - 1] && (a + b)[k] == b[0];
      } else {
        assert (a + b)[k - 1] == b[k - 1 - |a|] && (a + b)[k] == b[k - |a|];
      }
    }
  }

  /**
    The five integers of token t when the previous token started at
    (prevLine, prevCol). Each field can be read back: the position by adding
    the deltas to the cursor, the end column from the length, the type and
    the modifiers from the legend.
  */
  function Record(L: Legend, prevLine: nat, prevCol: nat, t: SemanticToken): (r: seq<int>)
    requires L.Valid()
    ensures |r| == 5
    ensures prevLine + r[0] == t.line
    ensures r[0] == 0 ==> prevCol + r[1] == t.startCol
    ensures r[0] != 0 ==> r[1] == t.startCol
    ensures t.startCol + r[2] == t.endCol
    ensures 0 <= r[3] < |L.types| && L.types[r[3]] == t.tokenType
    ensures ValidMask(L, r[4]) && DecodeMask(L.modifiers, r[4]) == t.modifiers
  {
    ModifierMaskRoundTrip(L, t.modifiers);
    var deltaLine := t.line - prevLine;
    var deltaStartCol := if deltaLine == 0 then t.startCol - prevCol else t.startCol;
    [deltaLine, deltaStartCol, t.endCol - t.startCol, TypeIndex(L, t.tokenType), ModifierMask(L, t.modifiers)]
  }

  /** Encoding continued from the cursor (prevLine, prevCol). */
  function EncodeFrom(L: Legend, prevLine: nat, prevCol: nat, ts: seq<SemanticToken>): (r: seq<int>)
    requires L.Valid()
    ensures |r| == 5 * |ts|
    decreases |ts|
  {
    if ts == [] then []
    else Record(L, prevLine, prevCol, ts[0]) + EncodeFrom(L, ts[0].line, ts[0].startCol, ts[1..])
  }

  /** `encodeTokens`: the wire array of a token sequence, cursor starting at (0, 0). */
  function EncodeTokens(L: Legend, ts: seq<SemanticToken>): (r: seq<int>)
    requires L.Valid()
    ensures |r| == 5 * |ts|
  {
    EncodeFrom(L, 0, 0, ts)
  }

  /** The cursor after encoding ts from (prevLine, prevCol): the start of its last token. */
  function Cursor(prevLine: nat, prevCol: nat, ts: seq<SemanticToken>): (nat, nat)
  {
    if ts == [] then (prevLine, prevCol) else (ts[|ts| - 1].line, ts[|ts| - 1].startCol)
  }

  /** Field f (0..4) of the k-th record of an encoded array. */
  function Field(data: seq<int>, k: nat, f: nat): int
    requires f < 5 && 5 * k + 5 <= |data|
  {
    data[5 * k + f]
  }

  /**
    The client-side inverse: walk the array with a cursor starting at (0, 0)
    and rebuild each token. Fails on a length that is not a multiple of 5,
    on a position or end column that comes out negative, on a type index
    outside the legend and on a mask with bits the legend does not define.
  */
  function DecodeFrom(L: Legend, prevLine: nat, prevCol: nat, data: seq<int>): Option<seq<SemanticToken>>
    decreases |data|
  {
    if data == [] then Some([])
    else if |data| < 5 then None
    else
      var line := prevLine + data[0];
      var startCol := if data[0] == 0 then prevCol + data[1] else data[1];
      var endCol := startCol + data[2];
      if line < 0 || startCol < 0 || endCol < 0 || !(0 <= data[3] < |L.types|) || !ValidMask(L, data[4]) then None
      else
        var t := SemanticToken(line, startCol, endCol, L.types[data[3]], DecodeMask(L.modifiers, data[4]));
        match DecodeFrom(L, line, startCol, data[5..])
        case None => None
        case Some(rest) => Some([t] + rest)
  }

  function DecodeTokens(L: Legend, data: seq<int>): Option<seq<SemanticToken>>
  {
    DecodeFrom(L, 0, 0, data)
  }

  /** Decoding an encoding from the same cursor gives back the tokens. */
  lemma {:induction false} DecodeEncodeFrom(L: Legend, prevLine: nat, prevCol: nat, ts: seq<SemanticToken>)
    requires L.Valid()
    ensures DecodeFrom(L, prevLine, prevCol, EncodeFrom(L, prevLine, prevCol, ts)) == Some(ts)
    decreases |ts|
  {
    if ts != [] {
      var data := EncodeFrom(L, prevLine, prevCol, ts);
      var r := Record(L, prevLine, prevCol, ts[0]);
      assert data[..5] == r && data[5..] == EncodeFrom(L, ts[0].line, ts[0].startCol, ts[1..]);
      DecodeEncodeFrom(L, ts[0].line, ts[0].startCol, ts[1..]);
      assert [ts[0]] + ts[1..] == ts;
    }
  }

  /** Round trip: the client recovers every token exactly (position, length, type, modifiers). */
  lemma RoundTrip(L: Legend, ts: seq<SemanticToken>)
    requires L.Valid()
    ensures DecodeTokens(L, EncodeTokens(L, ts)) == Some(ts)
  {
    DecodeEncodeFrom(L, 0, 0, ts);
  }

  /** Every array that decodes is the encoding of what it decodes to. */
  lemma {:induction false} EncodeDecodeFrom(L: Legend, prevLine: nat, prevCol: nat, data: seq<int>, ts: seq<SemanticToken>)
    requires L.Valid()
    requires DecodeFrom(L, prevLine, prevCol, data) == Some(ts)
    ensures EncodeFrom(L, prevLine, prevCol, ts) == data
    decreases |data|
  {
    if data != [] {
      var line := prevLine + data[0];
      var startCol := if data[0] == 0 then prevCol + data[1] else data[1];
      var rest :| DecodeFrom(L, line, startCol, data[5..]) == Some(rest) && ts == [ts[0]] + rest;
      assert ts[1..] == rest;
      EncodeDecodeFrom(L, line, startCol, data[5..], rest);
      TypeIndexInverse(L, data[3]);
      ModifierMaskOntoValid(L, data[4]);
      assert Record(L, prevLine, prevCol, ts[0]) == data[..5];
      assert data == data[..5] + data[5..];
    }
  }

  /** The wire arrays are exactly the encodings: decoding succeeds only on them. */
  lemma DecodeIsInverse(L: Legend, data: seq<int>, ts: seq<SemanticToken>)
    requires L.Valid()
    requires DecodeTokens(L, data) == Some(ts)
    ensures EncodeTokens(L, ts) == data
  {
    EncodeDecodeFrom(L, 0, 0, data, ts);
  }

  /** Encoding a concatenation: the second part continues from the cursor the first part leaves. */
  lemma {:induction false} EncodeAppend(L: Legend, prevLine: nat, prevCol: nat, a: seq<SemanticToken>, b: seq<SemanticToken>)
    requires L.Valid()
    ensures EncodeFrom(L, prevLine, prevCol, a + b)
         == EncodeFrom(L, prevLine, prevCol, a)
          + EncodeFrom(L, Cursor(prevLine, prevCol, a).0, Cursor(prevLine, prevCol, a).1, b)
    decreases |a|
  {
    if a != [] {
      assert (a + b)[0] == a[0] && (a + b)[1..] == a[1..] + b;
      EncodeAppend(L, a[0].line, a[0].startCol, a[1..], b);
      assert Cursor(a[0].line, a[0].startCol, a[1..]) == Cursor(prevLine, prevCol, a);
    } else {
      assert a + b == b;
    }
  }

  /** The k-th record of an encoding is the record of the k-th token against the (k-1)-th. */
  lemma {:induction false} EncodeFromAt(L: Legend, prevLine: nat, prevCol: nat, ts: seq<SemanticToken>, k: nat)
    requires L.Valid() && k < |ts|
    ensures EncodeFrom(L, prevLine, prevCol, ts)[5 * k .. 5 * k + 5]
         == if k == 0 then Record(L, prevLine, prevCol, ts[0])
            else Record(L, ts[k - 1].line, ts[k - 1].startCol, ts[k])
    decreases k
  {
    if k > 0 {
      EncodeFromAt(L, ts[0].line, ts[0].startCol, ts[1..], k - 1);
      var tail := EncodeFrom(L, ts[0].line, ts[0].startCol, ts[1..]);
      assert EncodeFrom(L, prevLine, prevCol, ts)[5 * k .. 5 * k + 5] == tail[5 * (k - 1) .. 5 * (k - 1) + 5];
    }
  }

  /**
    Per-token view of `encodeTokens`: the k-th token's five fields are its
    line and start column relative to the token before it (or to (0, 0) for
    the first), its length, its type ordinal and its modifier mask.
  */
  lemma EncodeAt(L: Legend, ts: seq<SemanticToken>, k: nat)
    requires L.Valid() && k < |ts|
    ensures var data := EncodeTokens(L, ts);
      var prevLine := if k == 0 then 0 else ts[k - 1].line;
      var prevCol := if k == 0 then 0 else ts[k - 1].startCol;
      && Field(data, k, 0) == ts[k].line - prevLine
      && Field(data, k, 1) == (if ts[k].line == prevLine then ts[k].startCol - prevCol else ts[k].startCol)
      && Field(data, k, 2) == ts[k].endCol - ts[k].startCol
      && Field(data, k, 3) == TypeIndex(L, ts[k].tokenType)
      && Field(data, k, 4) == ModifierMask(L, ts[k].modifiers)
  {
    EncodeFromAt(L, 0, 0, ts, k);
    var data := EncodeTokens(L, ts);
    assert forall f :: 0 <= f < 5 ==> Field(data, k, f) == data[5 * k .. 5 * k + 5][f];
  }

  /**
    Both deltas of every record are non-negative exactly when the tokens are
    in document order: the encoder relies on its input being sorted.
  */
  lemma DeltasNonNegativeIffInOrder(L: Legend, ts: seq<SemanticToken>)
    requires L.Valid()
    ensures (forall k :: 0 <= k < |ts| ==> Field(EncodeTokens(L, ts), k, 0) >= 0 && Field(EncodeTokens(L, ts), k, 1) >= 0)
        <==> InDocumentOrder(ts)
  {
    var data := EncodeTokens(L, ts);
    forall k | 0 <= k < |ts| ensures Field(data, k, 0) >= 0 && Field(data, k, 1) >= 0 <==> (k == 0 || StartsNoLaterThan(ts[k - 1], ts[k])) {
      EncodeAt(L, ts, k);
    }
    if InDocumentOrder(ts) {
      forall k | 0 <= k < |ts| ensures Field(data, k, 0) >= 0 && Field(data, k, 1) >= 0 {
        assert k == 0 || StartsNoLaterThan(ts[k - 1], ts[k]);
      }
    }
    if forall k :: 0 <= k < |ts| ==> Field(data, k, 0) >= 0 && Field(data, k, 1) >= 0 {
      forall k | 0 < k < |ts| ensures StartsNoLaterThan(ts[k - 1], ts[k]) {
        assert Field(data, k, 0) >= 0 && Field(data, k, 1) >= 0;
      }
    }
  }

  /**
    Two consecutive tokens on the same line (nested or overlapping ones
    included) give a record with line delta 0 and the difference of their
    start columns, so both are kept, in their order.
  */
  lemma SameLineDelta(L: Legend, ts: seq<SemanticToken>, k: nat)
    requires L.Valid() && 0 < k < |ts| && ts[k - 1].line == ts[k].line
    ensures Field(EncodeTokens(L, ts), k, 0) == 0
    ensures Field(EncodeTokens(L, ts), k, 1) == ts[k].startCol - ts[k - 1].startCol
  {
    EncodeAt(L, ts, k);
  }

  /** The length field of a well-formed token is positive and equals endCol - startCol. */
  lemma LengthField(L: Legend, ts: seq<SemanticToken>, k: nat)
    requires L.Valid() && k < |ts| && WellFormed(ts[k])
    ensures Field(EncodeTokens(L, ts), k, 2) == ts[k].endCol - ts[k].startCol > 0
  {
    EncodeAt(L, ts, k);
  }
}
