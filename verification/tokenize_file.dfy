/**
  The `tokenize file` scenario: the tokens the analysis produces for the
  sample document, line by line, and what the two requests return for it.
  Every statement holds for any valid legend.
*/
module TokenizeFile {
  import opened Legend
  import opened Encoder
  import opened Query
  import opened Wrappers

  const VarLine: nat := 1
  const ConstLine: nat := 2
  const StringLine: nat := 3
  const ClassLine: nat := 5
  const FunLine: nat := 7
  const EnumLine: nat := 9

  function ExpectedVar(): seq<SemanticToken>
  {
    [SemanticToken(VarLine, 5, 13, Property, {Declaration})]
  }

  /** String templates are not emitted; the interpolation entry and the property inside it both are. */
  function ExpectedConst(): seq<SemanticToken>
  {
    [ SemanticToken(ConstLine, 5, 13, Property, {Declaration, Readonly}),
      SemanticToken(ConstLine, 15, 21, Class),
      SemanticToken(ConstLine, 30, 39, InterpolationEntry),
      SemanticToken(ConstLine, 31, 39, Property) ]
  }

  function ExpectedString(): seq<SemanticToken>
  {
    [SemanticToken(StringLine, 5, 11, Property, {Declaration, Readonly})]
  }

  function ExpectedClass(): seq<SemanticToken>
  {
    [ SemanticToken(ClassLine, 12, 16, Class, {Declaration}),
      SemanticToken(ClassLine, 21, 29, Parameter, {Declaration, Readonly}),
      SemanticToken(ClassLine, 31, 34, Class) ]
  }

  function ExpectedFun(): seq<SemanticToken>
  {
    [ SemanticToken(FunLine, 5, 6, Function, {Declaration}),
      SemanticToken(FunLine, 7, 8, Parameter, {Declaration, Readonly}),
      SemanticToken(FunLine, 10, 13, Class),
      SemanticToken(FunLine, 24, 27, Class),
      SemanticToken(FunLine, 30, 31, Function),
      SemanticToken(FunLine, 32, 33, Variable, {Readonly}) ]
  }

  function ExpectedEnum(): seq<SemanticToken>
  {
    [ SemanticToken(EnumLine, 12, 16, Class, {Declaration}),
      SemanticToken(EnumLine, 19, 27, EnumMember, {Declaration}) ]
  }

  /** All tokens of the sample document, in document order. */
  function Document(): seq<SemanticToken>
  {
    ExpectedVar() + ExpectedConst() + ExpectedString() + ExpectedClass() + ExpectedFun() + ExpectedEnum()
  }

  /** The window of the range request: from line 2, column 0 to line 6, column 0. */
  function TestWindow(): Range
  {
    Range(Position(ConstLine, 0), Position(ClassLine + 1, 0))
  }

  /** The sample document is well formed and in document order. */
  lemma DocumentInOrder()
    ensures |Document()| == 17
    ensures forall k :: 0 <= k < |Document()| ==> WellFormed(Document()[k])
    ensures InDocumentOrder(Document())
  {
    var a := ExpectedVar();
    var b := ExpectedConst();
    var c := ExpectedString();
    var d := ExpectedClass();
    var e := ExpectedFun();
    var f := ExpectedEnum();
    InOrderAppend(a, b);
    InOrderAppend(a + b, c);
    InOrderAppend(a + b + c, d);
    InOrderAppend(a + b + c + d, e);
    InOrderAppend(a + b + c + d + e, f);
    forall k | 0 <= k < |Document()| ensures WellFormed(Document()[k]) {
      var doc := Document();
      if k < 1 { assert doc[k] == a[k]; }
      else if k < 5 { assert doc[k] == b[k - 1]; }
      else if k < 6 { assert doc[k] == c[k - 5]; }
      else if k < 9 { assert doc[k] == d[k - 6]; }
      else if k < 15 { assert doc[k] == e[k - 9]; }
      else { assert doc[k] == f[k - 15]; }
    }
  }

  /** Hence the full response has no negative delta. */
  lemma FullResponseDeltasNonNegative(L: Legend)
    requires L.Valid()
    ensures forall k :: 0 <= k < 17 ==>
      Field(SemanticTokensFull(L, Document()), k, 0) >= 0 && Field(SemanticTokensFull(L, Document()), k, 1) >= 0
  {
    DocumentInOrder();
    DeltasNonNegativeIffInOrder(L, Document());
  }

  /**
    The line-2 tokens: the first is measured from (0, 0); the other three,
    the nested interpolation entry and the property inside it included,
    have line delta 0 and the distance from the start column before them.
  */
  lemma ConstLineEncoding(L: Legend)
    requires L.Valid()
    ensures EncodeTokens(L, ExpectedConst()) ==
      [ 2, 5, 8, TypeIndex(L, Property), Pow2(ModifierBit(L, Declaration)) + Pow2(ModifierBit(L, Readonly)),
        0, 10, 6, TypeIndex(L, Class), 0,
        0, 15, 9, TypeIndex(L, InterpolationEntry), 0,
        0, 1, 8, TypeIndex(L, Property), 0 ]
  {
    TwoModifiersMask(L, Declaration, Readonly);
    NoModifiersMaskZero(L);
  }

  /**
    The range request over lines 2 to 6 answers the encoding of the line-2,
    line-3 and line-5 tokens alone: the tokens on lines 1, 7 and 9 are left
    out, and the first record counts its line from 0, not from line 1.
  */
  lemma RangeResponse(L: Legend)
    requires L.Valid()
    ensures SemanticTokensRange(L, Document(), TestWindow())
         == Success(EncodeTokens(L, ExpectedConst() + ExpectedString() + ExpectedClass()))
    ensures Field(SemanticTokensRange(L, Document(), TestWindow()).value, 0, 0) == 2
  {
    var inside := ExpectedConst() + ExpectedString() + ExpectedClass();
    assert Document() == ExpectedVar() + inside + (ExpectedFun() + ExpectedEnum());
    ClipSelectsMiddle(ExpectedVar(), inside, ExpectedFun() + ExpectedEnum(), TestWindow());
    EncodeAt(L, inside, 0);
  }

  /** The full request answers the encoding of all tokens, lines 1, 2, 3, 5, 7 and 9 in that order. */
  lemma FullResponse(L: Legend)
    requires L.Valid()
    ensures SemanticTokensFull(L, Document())
         == EncodeTokens(L, ExpectedVar() + ExpectedConst() + ExpectedString() + ExpectedClass() + ExpectedFun() + ExpectedEnum())
    ensures |SemanticTokensFull(L, Document())| == 85
    ensures Field(SemanticTokensFull(L, Document()), 1, 0) == ConstLine - VarLine
  {
    EncodeAt(L, Document(), 1);
  }
}
