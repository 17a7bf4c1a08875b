/**
  The profession width in `encodeSkillbar`: the encoder stores the selector
  `ceil((w - 4) / 2)` but writes both professions in the unrounded width `w`,
  while `decodeTemplate` reads them in `2 * selector + 4` bits. For an odd
  `w` the decoder reads one bit more than was written for the primary
  profession and everything after it shifts.
 */
module OddProfessionWidth {
  import opened Results
  import opened BitValue
  import opened Alphabet
  import opened Template
  import opened TemplateLaws

  /** When the widest profession needs an even number of bits (at least 4), the encoder as written and the corrected one agree. */
  lemma AsWrittenAgreesWhenEven(skillbar: Skillbar)
    requires ProfessionWidthAsWritten(skillbar.primary, skillbar.secondary) % 2 == 0
    ensures EncodeSkillbarAsWritten(skillbar) == EncodeSkillbar(skillbar)
  {
    assert ProfessionWidth(skillbar.primary, skillbar.secondary)
        == ProfessionWidthAsWritten(skillbar.primary, skillbar.secondary);
  }

  /** The selector stored is the same for the unrounded and the rounded width: only the profession fields differ. */
  lemma SelectorUnchanged(primary: nat, secondary: nat)
    ensures Selector(ProfessionWidth(primary, secondary)) == Selector(ProfessionWidthAsWritten(primary, secondary))
  {
  }

  /** For an even profession width the encoder as written completes the round trip through `decodeTemplate`. */
  lemma DecodeEncodeAsWritten(skillbar: Skillbar)
    requires Encodable(skillbar) && ProfessionWidthAsWritten(skillbar.primary, skillbar.secondary) % 2 == 0
    ensures Decode(EncodeSkillbarAsWritten(skillbar)) == Success(skillbar.(template := EncodeSkillbarAsWritten(skillbar)))
  {
    AsWrittenAgreesWhenEven(skillbar);
    DecodeEncode(skillbar);
  }

  /** A bar whose professions, 16 and 31, both need 5 bits: an odd width. */
  function OddWidthBar(): (skillbar: Skillbar)
    ensures Encodable(skillbar) && skillbar.primary == 16 && skillbar.secondary == 31
  {
    var skillbar := Skillbar(DefaultTemplateType, 0, 16, 31, map[], [1, 1, 1, 1, 1, 1, 1, 1], "");
    assert |skillbar.attributes.Keys| == 0;
    skillbar
  }

  /** Professions 16 and 31 are both 5 bits wide, so the selector stored is 1 and the width decoded is 6. */
  lemma OddWidthOfProfessions()
    ensures ProfessionWidthAsWritten(16, 31) == 5 && Selector(5) == 1
  {
    assert Pow2(4) == 16 && Pow2(5) == 32;
    BitLenBound(16, 4);
    BitLenBound(16, 5);
    BitLenBound(31, 4);
    BitLenBound(31, 5);
    assert [16, 31][1..] == [31];
    assert Widest(4, [31]) == Max(BitLen(31), Widest(4, []));
  }

  /** Six bits read from where a 5-bit 16 is followed by a 5-bit 31 take the 31's low bit as their top bit: 16 + 32 = 48. */
  lemma ShiftedPrimary(bits: Bits)
    requires FieldAt(bits, 10, 16, 5) && FieldAt(bits, 15, 31, 5)
    ensures Read(bits, 10, 6) == Success(48)
  {
    assert Pow2(1) == 2 && Pow2(4) == 16 && Pow2(5) == 32;
    ValueAtSplit(bits, 10, 5, 1);
    ValueAtSplit(bits, 15, 1, 4);
    ValueAtBound(bits, 15, 1);
    ValueAtBound(bits, 16, 4);
  }

  /** The bits the encoder as written produces for such a bar: selector 1, then 16 and 31 in 5 bits each. */
  lemma OddWidthBits(skillbar: Skillbar) returns (bits: Bits)
    requires Encodable(skillbar) && skillbar.primary == 16 && skillbar.secondary == 31
    ensures Base64ToBinary(EncodeSkillbarAsWritten(skillbar)) == Some(bits)
    ensures FieldAt(bits, 8, 1, 2) && FieldAt(bits, 10, 16, 5) && FieldAt(bits, 15, 31, 5)
  {
    OddWidthOfProfessions();
    var fields := EncodeFields(skillbar, 5);
    bits := PadToSextets(fields);
    var pad := Zeros(|bits| - |fields|);
    EncodedLayout(skillbar, 5, pad);
    var ids := SortedIds(skillbar.attributes.Keys);
    var skillWidth := Widest(8, skillbar.skills);
    var tail := ValueToBinary(|ids|, 4)
                + (ValueToBinary(Excess(Widest(4, ids), 4), 4)
                + (AttributeBits(skillbar.attributes, ids, Widest(4, ids))
                + (ValueToBinary(Excess(skillWidth, 8), 4)
                + (SkillBits(skillbar.skills, skillWidth) + pad))));
    var rest := ValueToBinary(31, 5) + tail;
    assert bits == ValueToBinary(14, 4) + (ValueToBinary(skillbar.version, 4) + (ValueToBinary(1, 2) + (ValueToBinary(16, 5) + rest)));
    assert Pow2(2) == 4 && Pow2(4) == 16 && Pow2(5) == 32;
    BitLenBound(14, 4);
    BitLenBound(skillbar.version, 4);
    BitLenBound(1, 2);
    BitLenBound(16, 5);
    BitLenBound(31, 5);
    var front := FrontValuesAt(bits, rest, 14, skillbar.version, 1, 5, 16);
    var _ := ValueField(bits, front, 15, 31, 5, tail);
  }

  /** Whatever `decodeTemplate` returns for those bits has primary profession 48, whatever the rest of the stream holds. */
  lemma DecodedPrimaryOfShiftedBits(template: string, bits: Bits)
    requires Base64ToBinary(template) == Some(bits)
    requires Read(bits, 8, 2) == Success(1) && Read(bits, 10, 6) == Success(48)
    ensures Decode(template).Success? ==> Decode(template).value.primary == 48
  {
    if Decode(template).Success? {
      assert DecodeProfessions(bits).Success? && DecodeProfessions(bits).value.1 == 48;
    }
  }

  /**
    The encoder as written loses the round trip for every encodable bar with
    professions 16 and 31: the text it produces does not decode to that bar;
    if it decodes at all, its primary profession is 48.
   */
  lemma OddWidthBreaksRoundTrip(skillbar: Skillbar)
    requires Encodable(skillbar) && skillbar.primary == 16 && skillbar.secondary == 31
    ensures var template := EncodeSkillbarAsWritten(skillbar);
      && (Decode(template).Success? ==> Decode(template).value.primary == 48)
      && Decode(template) != Success(skillbar.(template := template))
  {
    var bits := OddWidthBits(skillbar);
    ShiftedPrimary(bits);
    DecodedPrimaryOfShiftedBits(EncodeSkillbarAsWritten(skillbar), bits);
  }

  /** The encoder as written is not inverted by `decodeTemplate`: some bar within the round-trip bounds does not come back. */
  lemma AsWrittenFails()
    ensures exists skillbar ::
              && Encodable(skillbar)
              && Decode(EncodeSkillbarAsWritten(skillbar)) != Success(skillbar.(template := EncodeSkillbarAsWritten(skillbar)))
  {
    OddWidthBreaksRoundTrip(OddWidthBar());
  }
}
