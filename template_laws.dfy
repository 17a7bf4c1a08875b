/**
  Laws of the skill-template codec: what decoding rejects and accepts, that
  decoding reads back every field encoding writes, and that re-encoding a
  decoded bar is stable.
 */
module TemplateLaws {
  import opened Results
  import opened BitValue
  import opened Alphabet
  import opened Template

  // ------------------------------------------------- fields in a bit stream

  /** The bits taken by `count` (id, level) pairs. */
  function PairsWidth(count: nat, idWidth: nat): nat {
    count * (idWidth + 4)
  }

  /** The first pair is `idWidth + 4` bits; the rest follow it. */
  lemma PairsWidthStep(count: nat, idWidth: nat)
    requires count > 0
    ensures PairsWidth(count, idWidth) == idWidth + 4 + PairsWidth(count - 1, idWidth)
  {
  }

  /** The `w` bits from `at` are there and read, least significant first, as `v`. */
  predicate FieldAt(bits: Bits, at: nat, v: nat, w: nat) {
    at + w <= |bits| && ValueAt(bits, at, w) == v
  }

  /** The skill ids lie one after another from `at`, each in `width` bits. */
  predicate SkillsAt(bits: Bits, at: nat, skills: seq<nat>, width: nat)
    decreases |skills|
  {
    skills == [] || (FieldAt(bits, at, skills[0], width) && SkillsAt(bits, at + width, skills[1..], width))
  }

  /** The (id, level) pairs of `ids` lie one after another from `at`. */
  predicate AttributesAt(bits: Bits, at: nat, attributes: map<nat, nat>, ids: seq<nat>, idWidth: nat)
    requires forall k :: 0 <= k < |ids| ==> ids[k] in attributes
    decreases |ids|
  {
    ids == [] ||
      (FieldAt(bits, at, ids[0], idWidth) && FieldAt(bits, at + idWidth, attributes[ids[0]], 4)
       && AttributesAt(bits, at + idWidth + 4, attributes, ids[1..], idWidth))
  }

  /** `acc` with the level of every id of `ids` written into it, in list order. */
  function WithLevels(acc: map<nat, nat>, attributes: map<nat, nat>, ids: seq<nat>): map<nat, nat>
    requires forall k :: 0 <= k < |ids| ==> ids[k] in attributes
    decreases |ids|
  {
    if ids == [] then acc else WithLevels(acc[ids[0] := attributes[ids[0]]], attributes, ids[1..])
  }

  lemma Assoc(a: Bits, b: Bits, c: Bits)
    ensures a + b + c == a + (b + c)
  {
  }

  /** A value written with `valueToBinary(v, w)` after `prefix` is read back from position `|prefix|`. */
  lemma ValueField(bits: Bits, prefix: Bits, at: nat, v: nat, w: nat, tail: Bits) returns (after: Bits)
    requires BitLen(v) <= w
    requires bits == prefix + (ValueToBinary(v, w) + tail) && at == |prefix|
    ensures FieldAt(bits, at, v, w)
    ensures bits == after + tail && |after| == at + w
  {
    var field := ValueToBinary(v, w);
    assert bits[at .. at + w] == field;
    ValueAtIsBinaryToValue(bits, at, w);
    ValueRoundTrip(v, w);
    Assoc(prefix, field, tail);
    after := prefix + field;
  }

  lemma SkillBitsCons(skills: seq<nat>, width: nat, tail: Bits)
    requires skills != []
    ensures SkillBits(skills, width) + tail == ValueToBinary(skills[0], width) + (SkillBits(skills[1..], width) + tail)
  {
    var field, rest := ValueToBinary(skills[0], width), SkillBits(skills[1..], width);
    assert SkillBits(skills, width) == field + rest;
    Assoc(field, rest, tail);
  }

  /** A skill at `at` followed by the remaining skills is the whole list of skills from `at`. */
  lemma SkillsAtCons(bits: Bits, at: nat, skills: seq<nat>, width: nat)
    requires skills != [] && FieldAt(bits, at, skills[0], width)
    requires SkillsAt(bits, at + width, skills[1..], width)
    ensures SkillsAt(bits, at, skills, width)
  {
  }

  /** The skill ids `encodeSkillbar` writes after `prefix` lie one after another from `|prefix|`. */
  lemma {:induction false} EncodedSkillsAt(bits: Bits, prefix: Bits, at: nat, skills: seq<nat>, width: nat,
                                           tail: Bits)
    requires forall k :: 0 <= k < |skills| ==> BitLen(skills[k]) <= width
    requires bits == prefix + (SkillBits(skills, width) + tail) && at == |prefix|
    ensures SkillsAt(bits, at, skills, width)
    decreases |skills|
  {
    if skills != [] {
      var field, more := ValueToBinary(skills[0], width), SkillBits(skills[1..], width) + tail;
      SkillBitsCons(skills, width, tail);
      var after := ValueField(bits, prefix, at, skills[0], width, more);
      EncodedSkillsAt(bits, after, at + width, skills[1..], width, tail);
      SkillsAtCons(bits, at, skills, width);
    }
  }

  lemma AttributeBitsCons(attributes: map<nat, nat>, ids: seq<nat>, idWidth: nat, tail: Bits)
    requires ids != [] && forall k :: 0 <= k < |ids| ==> ids[k] in attributes
    ensures AttributeBits(attributes, ids, idWidth) + tail
         == ValueToBinary(ids[0], idWidth)
            + (ValueToBinary(attributes[ids[0]], 4) + (AttributeBits(attributes, ids[1..], idWidth) + tail))
  {
    Regroup(ValueToBinary(ids[0], idWidth), ValueToBinary(attributes[ids[0]], 4),
            AttributeBits(attributes, ids[1..], idWidth), tail);
  }

  lemma Regroup(a: Bits, b: Bits, c: Bits, d: Bits)
    ensures a + b + c + d == a + (b + (c + d))
  {
    assert a + b + c == a + (b + c);
    assert a + (b + c) + d == a + (b + c + d);
    assert b + c + d == b + (c + d);
  }

  /** The pairs `encodeSkillbar` writes take `PairsWidth` bits. */
  lemma {:induction false} AttributeBitsLength(attributes: map<nat, nat>, ids: seq<nat>, idWidth: nat)
    requires forall k :: 0 <= k < |ids| ==> ids[k] in attributes
    requires forall k :: 0 <= k < |ids| ==> BitLen(ids[k]) <= idWidth && attributes[ids[k]] < 16
    ensures |AttributeBits(attributes, ids, idWidth)| == PairsWidth(|ids|, idWidth)
    decreases |ids|
  {
    if ids != [] {
      assert Pow2(4) == 16;
      BitLenBound(attributes[ids[0]], 4);
      AttributeBitsLength(attributes, ids[1..], idWidth);
      PairsWidthStep(|ids|, idWidth);
    }
  }

  /** One (id, level) pair written after `prefix` is read back from `|prefix|`. */
  lemma EncodedPairAt(bits: Bits, prefix: Bits, at: nat, id: nat, level: nat, idWidth: nat, rest: Bits)
    returns (after: Bits)
    requires BitLen(id) <= idWidth && level < 16
    requires bits == prefix + (ValueToBinary(id, idWidth) + (ValueToBinary(level, 4) + rest)) && at == |prefix|
    ensures FieldAt(bits, at, id, idWidth) && FieldAt(bits, at + idWidth, level, 4)
    ensures bits == after + rest && |after| == at + idWidth + 4
  {
    var idAfter := ValueField(bits, prefix, at, id, idWidth, ValueToBinary(level, 4) + rest);
    assert Pow2(4) == 16;
    BitLenBound(level, 4);
    after := ValueField(bits, idAfter, at + idWidth, level, 4, rest);
  }

  /** A pair at `at` followed by the remaining pairs is the whole list of pairs from `at`. */
  lemma AttributesAtCons(bits: Bits, at: nat, attributes: map<nat, nat>, ids: seq<nat>, idWidth: nat)
    requires ids != [] && forall k :: 0 <= k < |ids| ==> ids[k] in attributes
    requires FieldAt(bits, at, ids[0], idWidth) && FieldAt(bits, at + idWidth, attributes[ids[0]], 4)
    requires AttributesAt(bits, at + idWidth + 4, attributes, ids[1..], idWidth)
    ensures AttributesAt(bits, at, attributes, ids, idWidth)
  {
  }

  /** The (id, level) pairs `encodeSkillbar` writes after `prefix` lie one after another from `|prefix|`. */
  lemma {:induction false} EncodedAttributesAt(bits: Bits, prefix: Bits, at: nat, attributes: map<nat, nat>,
                                               ids: seq<nat>, idWidth: nat, tail: Bits)
    requires forall k :: 0 <= k < |ids| ==> ids[k] in attributes
    requires forall k :: 0 <= k < |ids| ==> BitLen(ids[k]) <= idWidth && attributes[ids[k]] < 16
    requires bits == prefix + (AttributeBits(attributes, ids, idWidth) + tail) && at == |prefix|
    ensures AttributesAt(bits, at, attributes, ids, idWidth)
    decreases |ids|
  {
    if ids != [] {
      var rest := AttributeBits(attributes, ids[1..], idWidth) + tail;
      AttributeBitsCons(attributes, ids, idWidth, tail);
      var after := EncodedPairAt(bits, prefix, at, ids[0], attributes[ids[0]], idWidth, rest);
      EncodedAttributesAt(bits, after, at + idWidth + 4, attributes, ids[1..], idWidth, tail);
      AttributesAtCons(bits, at, attributes, ids, idWidth);
    }
  }

  // ------------------------------------------------------- reading them back

  /** The skill loop reads back ids that lie one after another, none of them zero. */
  lemma {:induction false} ReadEncodedSkills(bits: Bits, at: nat, skills: seq<nat>, width: nat, acc: seq<nat>)
    requires SkillsAt(bits, at, skills, width)
    requires forall k :: 0 <= k < |skills| ==> skills[k] != 0
    ensures ReadSkills(bits, at, width, |skills|, acc) == Success(acc + skills)
    decreases |skills|
  {
    if skills == [] {
      assert acc + skills == acc;
    } else {
      ReadEncodedSkills(bits, at + width, skills[1..], width, acc + [skills[0]]);
      assert acc + [skills[0]] + skills[1..] == acc + skills;
    }
  }

  /** The attribute loop reads back the pairs that lie one after another, into the map, and stops after them. */
  lemma {:induction false} ReadEncodedAttributes(bits: Bits, at: nat, attributes: map<nat, nat>, ids: seq<nat>,
                                                 idWidth: nat, acc: map<nat, nat>)
    requires forall k :: 0 <= k < |ids| ==> ids[k] in attributes
    requires AttributesAt(bits, at, attributes, ids, idWidth)
    ensures ReadAttributes(bits, at, |ids|, idWidth, acc)
         == Success((WithLevels(acc, attributes, ids), at + PairsWidth(|ids|, idWidth)))
    decreases |ids|
  {
    if ids != [] {
      ReadEncodedAttributes(bits, at + idWidth + 4, attributes, ids[1..], idWidth, acc[ids[0] := attributes[ids[0]]]);
      PairsWidthStep(|ids|, idWidth);
    }
  }

  // ------------------------------------------------------------ round trip

  /**
    The bars whose every field fits the width the layout gives it: type 14,
    a 4-bit version, professions of at most 10 bits (selector 3), fewer than
    16 attributes with ids of at most 19 bits and 4-bit levels, and eight
    non-zero skill ids of at most 23 bits.
   */
  predicate Encodable(skillbar: Skillbar) {
    && skillbar.templateType == DefaultTemplateType
    && skillbar.version < 16
    && skillbar.primary < 0x400 && skillbar.secondary < 0x400
    && |skillbar.attributes.Keys| < 16
    && (forall id :: id in skillbar.attributes ==> id < 0x8_0000 && skillbar.attributes[id] < 16)
    && |skillbar.skills| == SkillSlots
    && (forall k :: 0 <= k < |skillbar.skills| ==> 0 < skillbar.skills[k] < 0x80_0000)
  }

  /** A width chosen as the widest of some values stays within any width that holds them all. */
  lemma WidestAtMost(floor: nat, values: seq<nat>, w: nat)
    requires floor <= w && forall k :: 0 <= k < |values| ==> BitLen(values[k]) <= w
    ensures Widest(floor, values) <= w
  {
  }

  /** The header fields fit the widths `encodeSkillbar` gives them and the descriptors of those widths. */
  predicate HeaderWidthsFit(skillbar: Skillbar) {
    var professionWidth := ProfessionWidth(skillbar.primary, skillbar.secondary);
    var ids := SortedIds(skillbar.attributes.Keys);
    && skillbar.templateType == DefaultTemplateType
    && BitLen(skillbar.templateType) <= 4 && BitLen(skillbar.version) <= 4
    && professionWidth <= 10 && BitLen(Selector(professionWidth)) <= 2
    && BitLen(|ids|) <= 4 && 4 <= Widest(4, ids) && BitLen(Excess(Widest(4, ids), 4)) <= 4
  }

  /** The header fields of an encodable bar fit the widths `encodeSkillbar` gives them. */
  lemma EncodableHeaderWidths(skillbar: Skillbar)
    requires Encodable(skillbar)
    ensures HeaderWidthsFit(skillbar)
  {
    assert Pow2(2) == 4 && Pow2(4) == 16 && Pow2(10) == 0x400 && Pow2(19) == 0x8_0000;
    BitLenBound(skillbar.primary, 10);
    BitLenBound(skillbar.secondary, 10);
    BitLenBound(Selector(ProfessionWidth(skillbar.primary, skillbar.secondary)), 2);
    var ids := SortedIds(skillbar.attributes.Keys);
    SortedIdsOrdered(skillbar.attributes.Keys);
    BitLenBound(|ids|, 4);
    forall k | 0 <= k < |ids|
      ensures BitLen(ids[k]) <= 19
    {
      BitLenBound(ids[k], 19);
    }
    WidestAtMost(4, ids, 19);
    BitLenBound(Excess(Widest(4, ids), 4), 4);
    BitLenBound(skillbar.templateType, 4);
    BitLenBound(skillbar.version, 4);
  }

  /** The attribute pairs and skill ids of an encodable bar fit the widths `encodeSkillbar` gives them. */
  lemma EncodableBodyWidths(skillbar: Skillbar)
    requires Encodable(skillbar)
    ensures var ids := SortedIds(skillbar.attributes.Keys);
      (forall k :: 0 <= k < |ids| ==> BitLen(ids[k]) <= Widest(4, ids) && skillbar.attributes[ids[k]] < 16)
    ensures var width := Widest(8, skillbar.skills);
      8 <= width && BitLen(Excess(width, 8)) <= 4
      && forall k :: 0 <= k < |skillbar.skills| ==> BitLen(skillbar.skills[k]) <= width
  {
    assert Pow2(4) == 16 && Pow2(19) == 0x8_0000;
    assert Pow2(23) == 0x80_0000;
    forall k | 0 <= k < |skillbar.skills|
      ensures BitLen(skillbar.skills[k]) <= 23
    {
      BitLenBound(skillbar.skills[k], 23);
    }
    WidestAtMost(8, skillbar.skills, 23);
    BitLenBound(Excess(Widest(8, skillbar.skills), 8), 4);
  }

  /** The encoded stream, padded, as its fields one after another: seven header fields, the pairs, the skill width, the skills. */
  lemma EncodedLayout(skillbar: Skillbar, professionWidth: nat, pad: Bits)
    ensures var ids := SortedIds(skillbar.attributes.Keys);
      var skillWidth := Widest(8, skillbar.skills);
      EncodeFields(skillbar, professionWidth) + pad
      == ValueToBinary(skillbar.templateType, 4)
         + (ValueToBinary(skillbar.version, 4)
         + (ValueToBinary(Selector(professionWidth), 2)
         + (ValueToBinary(skillbar.primary, professionWidth)
         + (ValueToBinary(skillbar.secondary, professionWidth)
         + (ValueToBinary(|ids|, 4)
         + (ValueToBinary(Excess(Widest(4, ids), 4), 4)
         + (AttributeBits(skillbar.attributes, ids, Widest(4, ids))
         + (ValueToBinary(Excess(skillWidth, 8), 4)
         + (SkillBits(skillbar.skills, skillWidth) + pad)))))))))
  {
    var ids := SortedIds(skillbar.attributes.Keys);
    var skillWidth := Widest(8, skillbar.skills);
    var f1, f2, f3 := ValueToBinary(skillbar.templateType, 4), ValueToBinary(skillbar.version, 4),
                      ValueToBinary(Selector(professionWidth), 2);
    var f4, f5 := ValueToBinary(skillbar.primary, professionWidth), ValueToBinary(skillbar.secondary, professionWidth);
    var f6, f7 := ValueToBinary(|ids|, 4), ValueToBinary(Excess(Widest(4, ids), 4), 4);
    var f8, f9 := AttributeBits(skillbar.attributes, ids, Widest(4, ids)), ValueToBinary(Excess(skillWidth, 8), 4);
    var f10 := SkillBits(skillbar.skills, skillWidth);
    var x9 := f9 + f10;
    var x8 := f8 + x9;
    var x7 := f7 + x8;
    var x6 := f6 + x7;
    var x5 := f5 + x6;
    var x4 := f4 + x5;
    var x3 := f3 + x4;
    var x2 := f2 + x3;
    assert EncodeFields(skillbar, professionWidth) == f1 + x2;
    Assoc(f1, x2, pad);
    Assoc(f2, x3, pad);
    Assoc(f3, x4, pad);
    Assoc(f4, x5, pad);
    Assoc(f5, x6, pad);
    Assoc(f6, x7, pad);
    Assoc(f7, x8, pad);
    Assoc(f8, x9, pad);
    Assoc(f9, f10, pad);
  }

  /** The type, the version, the selector and the primary profession lie at the offsets decoding reads them from. */
  predicate FrontFieldsAt(bits: Bits, templateType: nat, version: nat, selector: nat, professionWidth: nat,
                          primary: nat)
  {
    && FieldAt(bits, 0, templateType, 4) && FieldAt(bits, 4, version, 4)
    && FieldAt(bits, 8, selector, 2) && FieldAt(bits, 10, primary, professionWidth)
  }

  /** The secondary profession and the two attribute descriptors lie at the offsets decoding reads them from. */
  predicate BackFieldsAt(bits: Bits, professionWidth: nat, secondary: nat, count: nat, excess: nat) {
    && FieldAt(bits, 10 + professionWidth, secondary, professionWidth)
    && FieldAt(bits, 10 + 2 * professionWidth, count, 4)
    && FieldAt(bits, 14 + 2 * professionWidth, excess, 4)
  }

  /** The type, the version, the selector and the primary profession lie at the offsets decoding reads them from. */
  lemma FrontValuesAt(bits: Bits, rest: Bits, templateType: nat, version: nat, selector: nat,
                      professionWidth: nat, primary: nat)
    returns (front: Bits)
    requires BitLen(templateType) <= 4 && BitLen(version) <= 4 && BitLen(selector) <= 2
    requires BitLen(primary) <= professionWidth
    requires bits == ValueToBinary(templateType, 4)
                     + (ValueToBinary(version, 4)
                     + (ValueToBinary(selector, 2)
                     + (ValueToBinary(primary, professionWidth) + rest)))
    ensures FrontFieldsAt(bits, templateType, version, selector, professionWidth, primary)
    ensures bits == front + rest && |front| == 10 + professionWidth
  {
    var x4 := ValueToBinary(primary, professionWidth) + rest;
    var x3 := ValueToBinary(selector, 2) + x4;
    var x2 := ValueToBinary(version, 4) + x3;
    var p0: Bits := [];
    assert bits == p0 + (ValueToBinary(templateType, 4) + x2);
    var p1 := ValueField(bits, p0, 0, templateType, 4, x2);
    var p2 := ValueField(bits, p1, 4, version, 4, x3);
    var p3 := ValueField(bits, p2, 8, selector, 2, x4);
    front := ValueField(bits, p3, 10, primary, professionWidth, rest);
  }

  /** The secondary profession and the two attribute descriptors lie at the offsets decoding reads them from. */
  lemma BackValuesAt(bits: Bits, front: Bits, rest: Bits, professionWidth: nat, secondary: nat, count: nat,
                     excess: nat)
    returns (header: Bits)
    requires BitLen(secondary) <= professionWidth && BitLen(count) <= 4 && BitLen(excess) <= 4
    requires bits == front
                     + (ValueToBinary(secondary, professionWidth)
                     + (ValueToBinary(count, 4)
                     + (ValueToBinary(excess, 4) + rest)))
    requires |front| == 10 + professionWidth
    ensures BackFieldsAt(bits, professionWidth, secondary, count, excess)
    ensures bits == header + rest && |header| == 18 + 2 * professionWidth
  {
    var x7 := ValueToBinary(excess, 4) + rest;
    var x6 := ValueToBinary(count, 4) + x7;
    var p5 := ValueField(bits, front, 10 + professionWidth, secondary, professionWidth, x6);
    var p6 := ValueField(bits, p5, 10 + 2 * professionWidth, count, 4, x7);
    header := ValueField(bits, p6, 14 + 2 * professionWidth, excess, 4, rest);
  }

  /** The seven header fields lie at the offsets decoding reads them from, the professions in `selector * 2 + 4` bits. */
  predicate HeaderFieldsAt(bits: Bits, version: nat, selector: nat, primary: nat, secondary: nat,
                           count: nat, excess: nat)
  {
    && FrontFieldsAt(bits, DefaultTemplateType, version, selector, selector * 2 + 4, primary)
    && BackFieldsAt(bits, selector * 2 + 4, secondary, count, excess)
  }

  /** Seven header values written with `valueToBinary` at their widths lie at the offsets decoding reads them from. */
  lemma HeaderValuesAt(bits: Bits, rest: Bits, version: nat, selector: nat,
                       primary: nat, secondary: nat, count: nat, excess: nat)
    returns (header: Bits)
    requires BitLen(version) <= 4 && BitLen(selector) <= 2
    requires BitLen(primary) <= selector * 2 + 4 && BitLen(secondary) <= selector * 2 + 4
    requires BitLen(count) <= 4 && BitLen(excess) <= 4
    requires bits == ValueToBinary(DefaultTemplateType, 4)
                     + (ValueToBinary(version, 4)
                     + (ValueToBinary(selector, 2)
                     + (ValueToBinary(primary, selector * 2 + 4)
                     + (ValueToBinary(secondary, selector * 2 + 4)
                     + (ValueToBinary(count, 4)
                     + (ValueToBinary(excess, 4) + rest))))))
    ensures HeaderFieldsAt(bits, version, selector, primary, secondary, count, excess)
    ensures bits == header + rest && |header| == 18 + 2 * (selector * 2 + 4)
  {
    assert Pow2(4) == 16;
    BitLenBound(DefaultTemplateType, 4);
    var back := ValueToBinary(secondary, selector * 2 + 4)
                + (ValueToBinary(count, 4) + (ValueToBinary(excess, 4) + rest));
    var front := FrontValuesAt(bits, back, DefaultTemplateType, version, selector, selector * 2 + 4, primary);
    header := BackValuesAt(bits, front, rest, selector * 2 + 4, secondary, count, excess);
  }

  /** Header fields that lie at the offsets decoding reads them from are decoded into a header. */
  lemma HeaderFromFields(bits: Bits, version: nat, selector: nat, primary: nat, secondary: nat,
                         count: nat, excess: nat)
    requires HeaderFieldsAt(bits, version, selector, primary, secondary, count, excess)
    ensures DecodeHeader(bits)
         == Success(Header(version, primary, secondary, count, excess + 4, 18 + 2 * (selector * 2 + 4)))
  {
    DecodeHeaderReads(bits, version, selector, primary, secondary, count, excess);
  }

  /** Decoding reads back seven header values written at their widths, and stops where what follows them begins. */
  lemma DecodeHeaderOfValues(bits: Bits, rest: Bits, version: nat, selector: nat,
                             primary: nat, secondary: nat, count: nat, excess: nat)
    returns (header: Bits)
    requires BitLen(version) <= 4 && BitLen(selector) <= 2
    requires BitLen(primary) <= selector * 2 + 4 && BitLen(secondary) <= selector * 2 + 4
    requires BitLen(count) <= 4 && BitLen(excess) <= 4
    requires bits == ValueToBinary(DefaultTemplateType, 4)
                     + (ValueToBinary(version, 4)
                     + (ValueToBinary(selector, 2)
                     + (ValueToBinary(primary, selector * 2 + 4)
                     + (ValueToBinary(secondary, selector * 2 + 4)
                     + (ValueToBinary(count, 4)
                     + (ValueToBinary(excess, 4) + rest))))))
    ensures DecodeHeader(bits)
         == Success(Header(version, primary, secondary, count, excess + 4, 18 + 2 * (selector * 2 + 4)))
    ensures bits == header + rest && |header| == 18 + 2 * (selector * 2 + 4)
  {
    header := HeaderValuesAt(bits, rest, version, selector, primary, secondary, count, excess);
    HeaderFromFields(bits, version, selector, primary, secondary, count, excess);
  }

  /** The attribute loop reads back the pairs `encodeSkillbar` writes, and stops where what follows them begins. */
  lemma DecodeAttributesAt(bits: Bits, prefix: Bits, at: nat, count: nat, attributes: map<nat, nat>,
                           ids: seq<nat>, idWidth: nat, tail: Bits)
    returns (levels: map<nat, nat>, after: nat, pairs: Bits)
    requires count == |ids|
    requires forall k :: 0 <= k < |ids| ==> ids[k] in attributes
    requires forall k :: 0 <= k < |ids| ==> BitLen(ids[k]) <= idWidth && attributes[ids[k]] < 16
    requires bits == prefix + (AttributeBits(attributes, ids, idWidth) + tail) && at == |prefix|
    ensures levels == WithLevels(map[], attributes, ids)
    ensures ReadAttributes(bits, at, count, idWidth, map[]) == Success((levels, after))
    ensures bits == pairs + tail && |pairs| == after
  {
    levels, after := WithLevels(map[], attributes, ids), at + PairsWidth(count, idWidth);
    pairs := prefix + AttributeBits(attributes, ids, idWidth);
    EncodedAttributesAt(bits, prefix, at, attributes, ids, idWidth, tail);
    ReadEncodedAttributes(bits, at, attributes, ids, idWidth, map[]);
    AttributeBitsLength(attributes, ids, idWidth);
    Assoc(prefix, AttributeBits(attributes, ids, idWidth), tail);
  }

  /** Decoding reads back the skill width and the skill ids `encodeSkillbar` writes. */
  lemma DecodeSkillsAt(bits: Bits, prefix: Bits, at: nat, skillExcess: nat, skills: seq<nat>, pad: Bits)
    requires BitLen(skillExcess) <= 4
    requires |skills| == SkillSlots
    requires forall k :: 0 <= k < |skills| ==> BitLen(skills[k]) <= skillExcess + 8 && skills[k] != 0
    requires bits == prefix + (ValueToBinary(skillExcess, 4) + (SkillBits(skills, skillExcess + 8) + pad))
    requires at == |prefix|
    ensures Read(bits, at, 4) == Success(skillExcess)
    ensures ReadSkills(bits, at + 4, skillExcess + 8, SkillSlots, []) == Success(skills)
  {
    var after := ValueField(bits, prefix, at, skillExcess, 4, SkillBits(skills, skillExcess + 8) + pad);
    WrittenSkillsRead(bits, after, at + 4, skills, skillExcess + 8, pad);
  }

  /** The skill loop over skills written after `prefix` reads them all back, in order. */
  lemma WrittenSkillsRead(bits: Bits, prefix: Bits, at: nat, skills: seq<nat>, width: nat, tail: Bits)
    requires forall k :: 0 <= k < |skills| ==> BitLen(skills[k]) <= width && skills[k] != 0
    requires bits == prefix + (SkillBits(skills, width) + tail) && at == |prefix|
    ensures ReadSkills(bits, at, width, |skills|, []) == Success(skills)
  {
    EncodedSkillsAt(bits, prefix, at, skills, width, tail);
    ReadEncodedSkills(bits, at, skills, width, []);
    assert [] + skills == skills;
  }

  /** The skill section is the skill-width read followed by the skill loop. */
  lemma SkillSectionOfReads(bits: Bits, at: nat, skillExcess: nat, skills: seq<nat>)
    requires Read(bits, at, 4) == Success(skillExcess)
    requires ReadSkills(bits, at + 4, skillExcess + 8, SkillSlots, []) == Success(skills)
    ensures ReadSkillSection(bits, at) == Success(skills)
  {
    assert ReadSkillSection(bits, at) == ReadSkills(bits, at + 4, skillExcess + 8, SkillSlots, []);
  }

  /** The fields after a header are decoded from what the attribute loop and the skill section yield. */
  lemma DecodeBodyOfReads(bits: Bits, header: Header, template: string, attributes: map<nat, nat>, after: nat,
                          skills: seq<nat>)
    requires ReadAttributes(bits, header.attributesAt, header.attributeCount, header.attributeWidth, map[])
          == Success((attributes, after))
    requires ReadSkillSection(bits, after) == Success(skills)
    ensures DecodeBody(bits, header, template)
         == Success(Skillbar(DefaultTemplateType, header.version, header.primary, header.secondary,
                             attributes, skills, template))
  {
  }

  /** Decoding reads back the attribute pairs, the skill width and the skills written after a header. */
  lemma DecodeBodyAt(bits: Bits, prefix: Bits, header: Header, template: string, attributes: map<nat, nat>,
                     ids: seq<nat>, skillExcess: nat, skills: seq<nat>, pad: Bits)
    requires forall k :: 0 <= k < |ids| ==> ids[k] in attributes
    requires forall k :: 0 <= k < |ids| ==> BitLen(ids[k]) <= header.attributeWidth && attributes[ids[k]] < 16
    requires BitLen(skillExcess) <= 4 && |skills| == SkillSlots
    requires forall k :: 0 <= k < |skills| ==> BitLen(skills[k]) <= skillExcess + 8 && skills[k] != 0
    requires header.attributeCount == |ids| && header.attributesAt == |prefix|
    requires bits == prefix
                     + (AttributeBits(attributes, ids, header.attributeWidth)
                     + (ValueToBinary(skillExcess, 4) + (SkillBits(skills, skillExcess + 8) + pad)))
    ensures DecodeBody(bits, header, template)
         == Success(Skillbar(DefaultTemplateType, header.version, header.primary, header.secondary,
                             WithLevels(map[], attributes, ids), skills, template))
  {
    var levels, after, pairs := DecodeAttributesAt(bits, prefix, header.attributesAt, header.attributeCount,
                                                   attributes, ids, header.attributeWidth,
                                                   ValueToBinary(skillExcess, 4) + (SkillBits(skills, skillExcess + 8) + pad));
    DecodeSkillsAt(bits, pairs, after, skillExcess, skills, pad);
    SkillSectionOfReads(bits, after, skillExcess, skills);
    DecodeBodyOfReads(bits, header, template, levels, after, skills);
  }

  /** Writing the levels of `ids` into `acc` adds exactly those ids, each with its level, and keeps the rest of `acc`. */
  lemma {:induction false} WithLevelsContents(acc: map<nat, nat>, attributes: map<nat, nat>, ids: seq<nat>)
    requires forall k :: 0 <= k < |ids| ==> ids[k] in attributes
    ensures forall id :: id in WithLevels(acc, attributes, ids) <==> id in acc || id in ids
    ensures forall id :: id in ids ==> WithLevels(acc, attributes, ids)[id] == attributes[id]
    ensures forall id :: id in acc && id !in ids ==> WithLevels(acc, attributes, ids)[id] == acc[id]
    decreases |ids|
  {
    if ids != [] {
      var next := acc[ids[0] := attributes[ids[0]]];
      WithLevelsContents(next, attributes, ids[1..]);
      forall id
        ensures id in ids <==> id == ids[0] || id in ids[1..]
      {
        assert ids == [ids[0]] + ids[1..];
      }
    }
  }

  /** Reading back the pairs of every attribute, in ascending id order, rebuilds the attribute map. */
  lemma WithLevelsOfSortedIds(attributes: map<nat, nat>)
    ensures forall k :: 0 <= k < |SortedIds(attributes.Keys)| ==> SortedIds(attributes.Keys)[k] in attributes
    ensures WithLevels(map[], attributes, SortedIds(attributes.Keys)) == attributes
  {
    var ids := SortedIds(attributes.Keys);
    SortedIdsOrdered(attributes.Keys);
    WithLevelsContents(map[], attributes, ids);
  }

  /** Decoding a stream laid out as `encodeSkillbar` lays out its fields yields those fields. */
  lemma DecodeLayout(bits: Bits, template: string, version: nat, selector: nat, primary: nat, secondary: nat,
                     attributes: map<nat, nat>, ids: seq<nat>, attributeExcess: nat, skillExcess: nat,
                     skills: seq<nat>, pad: Bits)
    returns (header: Header)
    requires BitLen(version) <= 4 && BitLen(selector) <= 2
    requires BitLen(primary) <= selector * 2 + 4 && BitLen(secondary) <= selector * 2 + 4
    requires BitLen(|ids|) <= 4 && BitLen(attributeExcess) <= 4 && BitLen(skillExcess) <= 4
    requires forall k :: 0 <= k < |ids| ==> ids[k] in attributes
    requires forall k :: 0 <= k < |ids| ==> BitLen(ids[k]) <= attributeExcess + 4 && attributes[ids[k]] < 16
    requires |skills| == SkillSlots
    requires forall k :: 0 <= k < |skills| ==> BitLen(skills[k]) <= skillExcess + 8 && skills[k] != 0
    requires bits == ValueToBinary(DefaultTemplateType, 4)
                     + (ValueToBinary(version, 4)
                     + (ValueToBinary(selector, 2)
                     + (ValueToBinary(primary, selector * 2 + 4)
                     + (ValueToBinary(secondary, selector * 2 + 4)
                     + (ValueToBinary(|ids|, 4)
                     + (ValueToBinary(attributeExcess, 4)
                     + (AttributeBits(attributes, ids, attributeExcess + 4)
                     + (ValueToBinary(skillExcess, 4)
                     + (SkillBits(skills, skillExcess + 8) + pad)))))))))
    ensures header == Header(version, primary, secondary, |ids|, attributeExcess + 4, 18 + 2 * (selector * 2 + 4))
    ensures DecodeHeader(bits) == Success(header)
    ensures DecodeBody(bits, header, template)
         == Success(Skillbar(DefaultTemplateType, version, primary, secondary,
                             WithLevels(map[], attributes, ids), skills, template))
  {
    var rest := AttributeBits(attributes, ids, attributeExcess + 4)
                + (ValueToBinary(skillExcess, 4) + (SkillBits(skills, skillExcess + 8) + pad));
    var headerBits := DecodeHeaderOfValues(bits, rest, version, selector, primary, secondary, |ids|, attributeExcess);
    header := Header(version, primary, secondary, |ids|, attributeExcess + 4, 18 + 2 * (selector * 2 + 4));
    DecodeBodyAt(bits, headerBits, header, template, attributes, ids, skillExcess, skills, pad);
  }

  /** Once the header is decoded, decoding goes on with the fields after it. */
  lemma DecodeBitsOfHeader(bits: Bits, template: string, header: Header)
    requires DecodeHeader(bits) == Success(header)
    ensures DecodeBits(bits, template) == DecodeBody(bits, header, template)
  {
  }

  /** Decoding the fields `encodeSkillbar` writes, padded, yields the bar, its attributes read back pair by pair. */
  lemma DecodeFields(skillbar: Skillbar, pad: Bits, template: string) returns (header: Header)
    requires Encodable(skillbar)
    ensures forall k :: 0 <= k < |SortedIds(skillbar.attributes.Keys)| ==>
      SortedIds(skillbar.attributes.Keys)[k] in skillbar.attributes
    ensures DecodeHeader(EncodeFields(skillbar, ProfessionWidth(skillbar.primary, skillbar.secondary)) + pad)
         == Success(header)
    ensures DecodeBody(EncodeFields(skillbar, ProfessionWidth(skillbar.primary, skillbar.secondary)) + pad, header,
                       template)
         == Success(Skillbar(DefaultTemplateType, skillbar.version, skillbar.primary, skillbar.secondary,
                             WithLevels(map[], skillbar.attributes, SortedIds(skillbar.attributes.Keys)),
                             skillbar.skills, template))
  {
    var professionWidth := ProfessionWidth(skillbar.primary, skillbar.secondary);
    var ids := SortedIds(skillbar.attributes.Keys);
    var attributeWidth := Widest(4, ids);
    var skillWidth := Widest(8, skillbar.skills);
    var selector := Selector(professionWidth);
    EncodableHeaderWidths(skillbar);
    EncodableBodyWidths(skillbar);
    EncodedLayout(skillbar, professionWidth, pad);
    assert professionWidth == selector * 2 + 4;
    assert attributeWidth == Excess(attributeWidth, 4) + 4 && skillWidth == Excess(skillWidth, 8) + 8;
    header := DecodeLayout(EncodeFields(skillbar, professionWidth) + pad, template, skillbar.version, selector,
                           skillbar.primary, skillbar.secondary, skillbar.attributes, ids, Excess(attributeWidth, 4),
                           Excess(skillWidth, 8), skillbar.skills, pad);
  }

  /**
    The round trip: decoding what `encodeSkillbar` writes for a bar whose
    fields fit their widths gives back that bar, with the template text set.
   */
  lemma DecodeEncode(skillbar: Skillbar)
    requires Encodable(skillbar)
    ensures Decode(EncodeSkillbar(skillbar)) == Success(skillbar.(template := EncodeSkillbar(skillbar)))
  {
    var template := EncodeSkillbar(skillbar);
    var fields := EncodeFields(skillbar, ProfessionWidth(skillbar.primary, skillbar.secondary));
    var padded := PadToSextets(fields);
    var header := DecodeFields(skillbar, Zeros(|padded| - |fields|), template);
    DecodeBitsOfHeader(padded, template, header);
    WithLevelsOfSortedIds(skillbar.attributes);
  }
}
