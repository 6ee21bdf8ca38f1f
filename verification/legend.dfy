/**
  The legend of the semantic-token protocol: the closed enumerations of token
  types and token modifiers, and their mapping to wire integers.

  The legend a server announces is an ordered list of type names and an
  ordered list of modifier names. A token type is sent as its position in the
  first list; a modifier set is sent as a bitmask in which bit i stands for
  the i-th entry of the second list. The concrete order used by the server is
  not fixed here: every definition and lemma holds for any valid legend.
*/
module Legend {

  /** The token types the tokenizer emits (those exercised by the `tokenize file` test). */
  datatype TokenType =
    | Property
    | Class
    | InterpolationEntry
    | Parameter
    | Function
    | Variable
    | EnumMember

  /** The token modifiers the tokenizer emits. */
  datatype TokenModifier = Declaration | Readonly

  function Pow2(n: nat): (r: nat)
    ensures r >= 1
  {
    if n == 0 then 1 else 2 * Pow2(n - 1)
  }

  /** Bit i of a non-negative integer. */
  predicate Bit(mask: nat, i: nat)
  {
    if i == 0 then mask % 2 == 1 else Bit(mask / 2, i - 1)
  }

  predicate Distinct<T(==)>(s: seq<T>)
  {
    forall i, j :: 0 <= i < j < |s| ==> s[i] != s[j]
  }

  /** Position of the first occurrence of x in s. */
  function IndexOf<T(==)>(s: seq<T>, x: T): (i: nat)
    requires x in s
    ensures i < |s| && s[i] == x
    ensures forall j :: 0 <= j < i ==> s[j] != x
  {
    if s[0] == x then 0 else 1 + IndexOf(s[1..], x)
  }

  /**
    An announced legend: every type and every modifier is listed exactly once,
    so that its position is a fixed, injective ordinal.
  */
  datatype Legend = Legend(types: seq<TokenType>, modifiers: seq<TokenModifier>)
  {
    predicate Valid()
    {
      && (forall t: TokenType :: t in types)
      && Distinct(types)
      && (forall m: TokenModifier :: m in modifiers)
      && Distinct(modifiers)
    }
  }

  /** The wire integer of a token type: its ordinal in the legend. */
  function TypeIndex(L: Legend, t: TokenType): (i: nat)
    requires L.Valid()
    ensures i < |L.types| && L.types[i] == t
  {
    IndexOf(L.types, t)
  }

  /** The bit position of a modifier: its ordinal in the legend. */
  function ModifierBit(L: Legend, m: TokenModifier): (i: nat)
    requires L.Valid()
    ensures i < |L.modifiers| && L.modifiers[i] == m
  {
    IndexOf(L.modifiers, m)
  }

  /** The bitmask of `mods` over the ordered modifier list `order` (bit i for order[i]). */
  function MaskOf(order: seq<TokenModifier>, mods: set<TokenModifier>): (r: nat)
    ensures r < Pow2(|order|)
  {
    if order == [] then 0
    else (if order[0] in mods then 1 else 0) + 2 * MaskOf(order[1..], mods)
  }

  /** The wire integer of a modifier set. */
  function ModifierMask(L: Legend, mods: set<TokenModifier>): (r: nat)
    requires L.Valid()
    ensures r < Pow2(|L.modifiers|)
    ensures forall m :: Bit(r, ModifierBit(L, m)) <==> m in mods
  {
    forall m ensures Bit(MaskOf(L.modifiers, mods), ModifierBit(L, m)) <==> m in mods {
      MaskBits(L.modifiers, mods, ModifierBit(L, m));
    }
    MaskOf(L.modifiers, mods)
  }

  /** The modifier set a bitmask stands for over the ordered list `order`. */
  function DecodeMask(order: seq<TokenModifier>, mask: nat): (r: set<TokenModifier>)
    ensures forall m :: m in r ==> m in order
  {
    if order == [] then {}
    else (if mask % 2 == 1 then {order[0]} else {}) + DecodeMask(order[1..], mask / 2)
  }

  /** A bitmask that only uses bits the legend defines. */
  predicate ValidMask(L: Legend, mask: int)
  {
    0 <= mask < Pow2(|L.modifiers|)
  }

  /** Bit i of the mask is set exactly when the i-th listed modifier is in the set. */
  lemma {:induction false} MaskBits(order: seq<TokenModifier>, mods: set<TokenModifier>, i: nat)
    requires i < |order|
    ensures Bit(MaskOf(order, mods), i) <==> order[i] in mods
  {
    var b := if order[0] in mods then 1 else 0;
    var rest := MaskOf(order[1..], mods);
    assert MaskOf(order, mods) == b + 2 * rest;
    assert (b + 2 * rest) % 2 == b && (b + 2 * rest) / 2 == rest;
    if i > 0 {
      MaskBits(order[1..], mods, i - 1);
    }
  }

  /** A mask below 2^n has no bit at position n or above. */
  lemma {:induction false} NoBitAboveWidth(mask: nat, n: nat, i: nat)
    requires mask < Pow2(n) && n <= i
    ensures !Bit(mask, i)
  {
    if i > 0 {
      if n == 0 {
        assert mask == 0;
        NoBitAboveWidth(0, 0, i - 1);
      } else {
        NoBitAboveWidth(mask / 2, n - 1, i - 1);
      }
    }
  }

  /** The head of a repetition-free list does not recur in its tail, which is repetition-free too. */
  lemma DistinctTail<T>(s: seq<T>)
    requires Distinct(s) && s != []
    ensures s[0] !in s[1..] && Distinct(s[1..])
  {
    forall j | 0 <= j < |s[1..]| ensures s[1..][j] != s[0] {
      assert s[1..][j] == s[j + 1];
    }
    forall p, q | 0 <= p < q < |s[1..]| ensures s[1..][p] != s[1..][q] {
      assert s[1..][p] == s[p + 1] && s[1..][q] == s[q + 1];
    }
  }

  /** The mask depends only on which listed modifiers are in the set. */
  lemma {:induction false} MaskOfAgrees(order: seq<TokenModifier>, a: set<TokenModifier>, b: set<TokenModifier>)
    requires forall m :: m in order ==> (m in a <==> m in b)
    ensures MaskOf(order, a) == MaskOf(order, b)
  {
    if order != [] {
      assert order[0] in order;
      MaskOfAgrees(order[1..], a, b);
    }
  }

  /** Decoding the mask of a set gives back the part of the set the list covers. */
  lemma {:induction false} DecodeMaskOf(order: seq<TokenModifier>, mods: set<TokenModifier>)
    ensures DecodeMask(order, MaskOf(order, mods)) == mods * (set m | m in order)
  {
    if order != [] {
      var b := if order[0] in mods then 1 else 0;
      var rest := MaskOf(order[1..], mods);
      assert MaskOf(order, mods) == b + 2 * rest;
      assert (b + 2 * rest) % 2 == b && (b + 2 * rest) / 2 == rest;
      DecodeMaskOf(order[1..], mods);
      assert (set m | m in order) == {order[0]} + (set m | m in order[1..]);
    }
  }

  /** Encoding the set a mask decodes to gives back the mask, for a mask of the list's width. */
  lemma {:induction false} MaskOfDecode(order: seq<TokenModifier>, mask: nat)
    requires Distinct(order) && mask < Pow2(|order|)
    ensures MaskOf(order, DecodeMask(order, mask)) == mask
  {
    if order == [] {
      assert mask == 0;
    } else {
      var rest := DecodeMask(order[1..], mask / 2);
      var head: set<TokenModifier> := if mask % 2 == 1 then {order[0]} else {};
      DistinctTail(order);
      assert order[0] !in rest;
      MaskOfAgrees(order[1..], head + rest, rest);
      MaskOfDecode(order[1..], mask / 2);
      assert MaskOf(order, head + rest) == (if mask % 2 == 1 then 1 else 0) + 2 * MaskOf(order[1..], head + rest);
    }
  }

  /** The mask of a set is the sum of the bits of its members (distinct bits: their bitwise OR). */
  lemma {:induction false} MaskOfUnion(order: seq<TokenModifier>, a: set<TokenModifier>, b: set<TokenModifier>)
    requires a * b == {}
    ensures MaskOf(order, a + b) == MaskOf(order, a) + MaskOf(order, b)
  {
    if order != [] {
      assert order[0] !in a * b;
      assert (if order[0] in a + b then 1 else 0) == (if order[0] in a then 1 else 0) + (if order[0] in b then 1 else 0);
      MaskOfUnion(order[1..], a, b);
    }
  }

  /** A single listed modifier sets exactly its own bit. */
  lemma {:induction false} MaskOfSingleton(order: seq<TokenModifier>, i: nat)
    requires Distinct(order) && i < |order|
    ensures MaskOf(order, {order[i]}) == Pow2(i)
  {
    if i == 0 {
      DistinctTail(order);
      MaskOfAgrees(order[1..], {order[0]}, {});
      assert MaskOf(order[1..], {}) == 0 by { MaskOfEmpty(order[1..]); }
    } else {
      DistinctTail(order);
      assert order[1..][i - 1] == order[i];
      MaskOfSingleton(order[1..], i - 1);
    }
  }

  /** The empty modifier set has mask 0. */
  lemma {:induction false} MaskOfEmpty(order: seq<TokenModifier>)
    ensures MaskOf(order, {}) == 0
  {
    if order != [] {
      MaskOfEmpty(order[1..]);
    }
  }

  /** Type ordinals are injective and every ordinal of the legend names its own entry. */
  lemma TypeIndexInverse(L: Legend, i: nat)
    requires L.Valid() && i < |L.types|
    ensures TypeIndex(L, L.types[i]) == i
  {
  }

  /** Decoding a modifier mask of a valid legend recovers the modifier set exactly. */
  lemma ModifierMaskRoundTrip(L: Legend, mods: set<TokenModifier>)
    requires L.Valid()
    ensures DecodeMask(L.modifiers, ModifierMask(L, mods)) == mods
  {
    DecodeMaskOf(L.modifiers, mods);
  }

  /** Every mask of the legend's width is the mask of the set it decodes to. */
  lemma ModifierMaskOntoValid(L: Legend, mask: nat)
    requires L.Valid() && ValidMask(L, mask)
    ensures ModifierMask(L, DecodeMask(L.modifiers, mask)) == mask
  {
    MaskOfDecode(L.modifiers, mask);
  }

  /** A modifier set without members has mask 0. */
  lemma NoModifiersMaskZero(L: Legend)
    requires L.Valid()
    ensures ModifierMask(L, {}) == 0
  {
    MaskOfEmpty(L.modifiers);
  }

  /** Two distinct modifiers occupy two distinct bits and their set's mask is the OR of those bits. */
  lemma TwoModifiersMask(L: Legend, a: TokenModifier, b: TokenModifier)
    requires L.Valid() && a != b
    ensures ModifierBit(L, a) != ModifierBit(L, b)
    ensures ModifierMask(L, {a, b}) == Pow2(ModifierBit(L, a)) + Pow2(ModifierBit(L, b))
  {
    MaskOfUnion(L.modifiers, {a}, {b});
    assert {a} + {b} == {a, b};
    MaskOfSingleton(L.modifiers, ModifierBit(L, a));
    MaskOfSingleton(L.modifiers, ModifierBit(L, b));
  }
}
