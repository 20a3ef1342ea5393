/**
  Version-4 UUIDs (index.js, `extendWith.uuid` and `extendWith.isUuid`), in the layout of
  RFC 4122: the version nibble of section 4.1.3 is fixed to 4, the variant bits of section
  4.1.1 are `10x` (a first digit of 8, 9, a or b in the fourth group), and every other digit is
  random (section 4.4).

  `uuid` fills the template "xxxxxxxx-xxxx-4xxx-yxxx-xxxxxxxxxxxx" by a global replace of
  `[xy]`: each `x` gets `_.random(0, 15)` and the one `y` gets `_.random(8, 11)`, written with
  `toString(16)` (one lower-case hex digit). The random source is not modelled: the digits it
  would draw are an input, one per slot, in template order.
*/
module UuidV4 {

  const Template: string := "xxxxxxxx-xxxx-4xxx-yxxx-xxxxxxxxxxxx"

  /** The template's characters position by position. */
  lemma TemplateLayout()
    ensures |Template| == 36
    ensures forall k :: 0 <= k < 36 ==>
      Template[k] == (if k == 8 || k == 13 || k == 18 || k == 23 then '-'
                      else if k == 14 then '4'
                      else if k == 19 then 'y'
                      else 'x')
  {
  }

  predicate IsHexDigit(c: char) {
    '0' <= c <= '9' || 'a' <= c <= 'f' || 'A' <= c <= 'F'
  }

  predicate IsLowerHexDigit(c: char) {
    '0' <= c <= '9' || 'a' <= c <= 'f'
  }

  /** `[89ab]` under the case-insensitive flag. */
  predicate IsVariantDigit(c: char) {
    c == '8' || c == '9' || c == 'a' || c == 'b' || c == 'A' || c == 'B'
  }

  predicate AllHex(s: string) {
    forall k :: 0 <= k < |s| ==> IsHexDigit(s[k])
  }

  /** `isUuid`: the whole string matches
      /^[0-9a-f]{8}-[0-9a-f]{4}-4[0-9a-f]{3}-[89ab][0-9a-f]{3}-[0-9a-f]{12}$/i,
      written group by group. */
  predicate IsUuid(s: string) {
    && |s| == 36
    && AllHex(s[0..8]) && s[8] == '-'
    && AllHex(s[9..13]) && s[13] == '-'
    && s[14] == '4' && AllHex(s[15..18]) && s[18] == '-'
    && IsVariantDigit(s[19]) && AllHex(s[20..23]) && s[23] == '-'
    && AllHex(s[24..36])
  }

  /** What the pattern accepts at position `k` of a 36-character string. */
  predicate UuidCharOk(k: int, c: char) {
    if k == 8 || k == 13 || k == 18 || k == 23 then c == '-'
    else if k == 14 then c == '4'
    else if k == 19 then IsVariantDigit(c)
    else IsHexDigit(c)
  }

  /** `isUuid` position by position: 36 characters, hyphens at 8, 13, 18 and 23, the version
      digit '4' at 14, a variant digit at 19, and a hex digit of either case everywhere else. */
  lemma IsUuidByPosition(s: string)
    ensures IsUuid(s) <==> |s| == 36 && forall k :: 0 <= k < 36 ==> UuidCharOk(k, s[k])
  {
    if |s| == 36 {
      if IsUuid(s) {
        forall k | 0 <= k < 36 ensures UuidCharOk(k, s[k]) {
          if k < 8 { assert s[k] == s[0..8][k]; }
          else if 9 <= k < 13 { assert s[k] == s[9..13][k - 9]; }
          else if 15 <= k < 18 { assert s[k] == s[15..18][k - 15]; }
          else if 20 <= k < 23 { assert s[k] == s[20..23][k - 20]; }
          else if 24 <= k { assert s[k] == s[24..36][k - 24]; }
        }
      }
    }
  }

  /** One lower-case hex digit, as `value.toString(16)` writes a value below 16. */
  function HexChar(v: nat): char
    requires v < 16
  {
    "0123456789abcdef"[v]
  }

  /** The value of a lower-case hex digit. */
  function HexValue(c: char): (v: nat)
    ensures v < 16
    ensures c in "89ab" ==> 8 <= v <= 11
  {
    if '0' <= c <= '9' then (c as int - '0' as int) as nat
    else if 'a' <= c <= 'f' then (c as int - 'a' as int + 10) as nat
    else 0
  }

  /** Writing a value and reading it back gives the value; the digit is lower-case hex. */
  lemma HexRoundTrip(v: nat)
    requires v < 16
    ensures IsLowerHexDigit(HexChar(v)) && HexValue(HexChar(v)) == v
    ensures 8 <= v <= 11 <==> HexChar(v) in "89ab"
  {
  }

  /** Lower-case hex digits with the same value are the same digit. */
  lemma HexValueInjective(c1: char, c2: char)
    requires IsLowerHexDigit(c1) && IsLowerHexDigit(c2) && HexValue(c1) == HexValue(c2)
    ensures c1 == c2
  {
  }

  predicate IsSlot(c: char) {
    c == 'x' || c == 'y'
  }

  /** The number of `[xy]` slots in `t`. */
  function SlotCount(t: string): nat {
    if t == [] then 0 else SlotCount(t[..|t| - 1]) + (if IsSlot(t[|t| - 1]) then 1 else 0)
  }

  /** The range `_.random` draws from for a slot: 0..15 for `x`, 8..11 for `y`. */
  predicate FitsSlot(c: char, v: nat) {
    if c == 'x' then v <= 15 else 8 <= v <= 11
  }

  /** `digits` is a possible draw for template `t`: one value per slot, the slot at position `p`
      taking `digits[SlotCount(t[..p])]`, each in its slot's range. */
  predicate Supplies(t: string, digits: seq<nat>) {
    && |digits| == SlotCount(t)
    && forall p :: 0 <= p < |t| && IsSlot(t[p]) ==>
         SlotCount(t[..p]) < |digits| && FitsSlot(t[p], digits[SlotCount(t[..p])])
  }

  /** `s` has the shape the replace can produce from `t`: a lower-case hex digit for each `x`,
      one of 8, 9, a, b for each `y`, and every other character copied. */
  predicate Conforms(t: string, s: string) {
    && |s| == |t|
    && forall p :: 0 <= p < |t| ==>
         if t[p] == 'x' then IsLowerHexDigit(s[p])
         else if t[p] == 'y' then s[p] in "89ab"
         else s[p] == t[p]
  }

  /** The slot values of `s` read back against template `t`, in template order. */
  function SlotValues(t: string, s: string): (vs: seq<nat>)
    requires |s| == |t|
    ensures |vs| == SlotCount(t)
  {
    if t == [] then []
    else
      SlotValues(t[..|t| - 1], s[..|t| - 1])
      + (if IsSlot(t[|t| - 1]) then [HexValue(s[|t| - 1])] else [])
  }

  /** The value read back at the slot at position `p` is the value of the character there. */
  lemma {:induction false} SlotValuesAt(t: string, s: string, p: nat)
    requires |s| == |t| && p < |t| && IsSlot(t[p])
    ensures SlotCount(t[..p]) < SlotCount(t)
    ensures SlotValues(t, s)[SlotCount(t[..p])] == HexValue(s[p])
    decreases |t|
  {
    var n := |t| - 1;
    if p < n {
      SlotValuesAt(t[..n], s[..n], p);
      assert t[..n][..p] == t[..p];
    } else {
      assert t[..n] == t[..p];
    }
  }

  /** Every string of the template's shape is a version-4 UUID in lower case. */
  lemma ConformingIsUuid(s: string)
    requires Conforms(Template, s)
    ensures IsUuid(s)
    ensures s[14] == '4' && s[19] in "89ab"
    ensures forall k :: 0 <= k < |s| ==> !('A' <= s[k] <= 'Z')
  {
    TemplateLayout();
    assert forall k :: 0 <= k < 36 ==> UuidCharOk(k, s[k]);
    IsUuidByPosition(s);
  }

  /** Conversely, every lower-case version-4 UUID has the template's shape, and the slot values
      it carries are a possible draw: `uuid` can return any of them. */
  lemma EveryLowerCaseUuidIsReachable(s: string)
    requires IsUuid(s)
    requires forall k :: 0 <= k < |s| ==> !('A' <= s[k] <= 'Z')
    ensures Conforms(Template, s)
    ensures Supplies(Template, SlotValues(Template, s))
    ensures forall s' :: Conforms(Template, s') && SlotValues(Template, s') == SlotValues(Template, s) ==> s' == s
  {
    IsUuidByPosition(s);
    TemplateLayout();
    assert forall k :: 0 <= k < 36 ==> UuidCharOk(k, s[k]);
    assert Conforms(Template, s);
    var vs := SlotValues(Template, s);
    forall p | 0 <= p < |Template| && IsSlot(Template[p])
      ensures SlotCount(Template[..p]) < |vs| && FitsSlot(Template[p], vs[SlotCount(Template[..p])])
    {
      SlotValuesAt(Template, s, p);
    }
    forall s' | Conforms(Template, s') && SlotValues(Template, s') == vs ensures s' == s {
      DeterminedBySlotValues(Template, s', s);
    }
  }

  /** The slot values determine the output: two strings of the same template shape carrying the
      same values are equal. */
  lemma {:induction false} DeterminedBySlotValues(t: string, s1: string, s2: string)
    requires Conforms(t, s1) && Conforms(t, s2)
    requires SlotValues(t, s1) == SlotValues(t, s2)
    ensures s1 == s2
    decreases |t|
  {
    if t != [] {
      var n := |t| - 1;
      assert Conforms(t[..n], s1[..n]) && Conforms(t[..n], s2[..n]);
      assert SlotValues(t[..n], s1[..n]) == SlotValues(t, s1)[..SlotCount(t[..n])];
      assert SlotValues(t[..n], s2[..n]) == SlotValues(t, s2)[..SlotCount(t[..n])];
      DeterminedBySlotValues(t[..n], s1[..n], s2[..n]);
      if IsSlot(t[n]) {
        assert HexValue(s1[n]) == SlotValues(t, s1)[SlotCount(t[..n])];
        assert HexValue(s2[n]) == SlotValues(t, s2)[SlotCount(t[..n])];
        HexValueInjective(s1[n], s2[n]);
      }
      assert s1 == s1[..n] + [s1[n]] && s2 == s2[..n] + [s2[n]];
    }
  }

  /** What the replace has written after one more template character `t[p]`, written as `c`. */
  lemma ExtendByOne(t: string, s: string, p: nat, c: char)
    requires |s| == p < |t|
    requires Conforms(t[..p], s)
    requires if t[p] == 'x' then IsLowerHexDigit(c) else if t[p] == 'y' then c in "89ab" else c == t[p]
    ensures Conforms(t[..p + 1], s + [c])
    ensures SlotCount(t[..p + 1]) == SlotCount(t[..p]) + (if IsSlot(t[p]) then 1 else 0)
    ensures SlotValues(t[..p + 1], s + [c]) ==
      SlotValues(t[..p], s) + (if IsSlot(t[p]) then [HexValue(c)] else [])
  {
    var u, w := t[..p + 1], s + [c];
    assert u[..p] == t[..p] && w[..p] == s;
  }

  /** The global replace of `[xy]` over template `t`: each slot, in order, gets the next value
      of the draw as one lower-case hex digit; other characters are copied. */
  method FillSlots(t: string, digits: seq<nat>) returns (s: string)
    requires Supplies(t, digits)
    ensures Conforms(t, s)
    ensures SlotValues(t, s) == digits
  {
    s := "";
    var j := 0;
    for p := 0 to |t|
      invariant |s| == p && j == SlotCount(t[..p])
      invariant Conforms(t[..p], s)
      invariant j <= |digits| && SlotValues(t[..p], s) == digits[..j]
    {
      var c := t[p];
      if IsSlot(c) {
        HexRoundTrip(digits[j]);
        var h := HexChar(digits[j]);
        ExtendByOne(t, s, p, h);
        assert digits[..j + 1] == digits[..j] + [digits[j]];
        s := s + [h];
        j := j + 1;
      } else {
        ExtendByOne(t, s, p, c);
        s := s + [c];
      }
    }
    assert t[..|t|] == t;
  }

  /** `uuid()` with the values `_.random` would draw given as `digits`. */
  method Uuid(digits: seq<nat>) returns (s: string)
    requires Supplies(Template, digits)
    ensures Conforms(Template, s)
    ensures SlotValues(Template, s) == digits
    ensures IsUuid(s) && s[14] == '4' && s[19] in "89ab"
  {
    s := FillSlots(Template, digits);
    ConformingIsUuid(s);
  }

  /** The example output in the source's documentation is accepted; a string of the wrong
      shape is not, and neither is one whose variant digit is outside 8, 9, a, b. */
  lemma IsUuidExamples(good: string, short: string, badVariant: string)
    requires good == "9716498c-45df-47d2-8099-3f678446d776"
    requires short == "not-a-uuid"
    requires badVariant == "9716498c-45df-47d2-c099-3f678446d776"
    ensures IsUuid(good) && !IsUuid(short) && !IsUuid(badVariant)
  {
    assert forall k :: 0 <= k < 36 ==> UuidCharOk(k, good[k]);
    IsUuidByPosition(good);
    assert !IsVariantDigit(badVariant[19]);
  }
}
