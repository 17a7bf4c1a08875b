/**
  Laws of `decodeTemplate` on any text: which texts it rejects and why, the
  shape of what it accepts, how far each read moves the cursor, and that what
  it accepts can be encoded again and decoded to the same bar.
 */
module DecodeLaws {
  import opened Results
  import opened BitValue
  import opened Alphabet
  import opened Template
  import opened TemplateLaws

  // --------------------------------------------------------------- rejection

  /** Reading the bit stream fails only for the type, a zero skill or a short stream; the type fails exactly when its 4 bits are not 14. */
  lemma DecodeBitsErrors(bits: Bits, template: string)
    ensures DecodeBits(bits, template).Failure? ==> DecodeBits(bits, template).error != InvalidCharacter
    ensures DecodeBits(bits, template) == Failure(WrongType)
        <==> Read(bits, 0, 4).Success? && Read(bits, 0, 4).value != DefaultTemplateType
  {
  }

  /** `getCharIndex` throws, and no bar is decoded, exactly when some character is outside the alphabet. */
  lemma DecodeRejectsUnknownSymbols(template: string)
    ensures Decode(template) == Failure(InvalidCharacter)
        <==> exists k :: 0 <= k < |template| && SymbolValue(template[k]).None?
  {
    Base64ToBinaryAccepts(template);
    if Base64ToBinary(template).Some? {
      DecodeBitsErrors(Base64ToBinary(template).value, template);
    }
  }

  /** Below 64, the low 4 bits of a 6-bit field are its value modulo 16. */
  lemma LowBitsOfSextet(v: nat, rest: Bits)
    requires v < 64
    ensures ValueAt(ValueToBinary(v, 6) + rest, 0, 4) == v % 16
  {
    var bits := ValueToBinary(v, 6) + rest;
    assert Pow2(6) == 64 && Pow2(4) == 16;
    BitLenBound(v, 6);
    var start: Bits := [];
    assert bits == start + (ValueToBinary(v, 6) + rest);
    var _ := ValueField(bits, start, 0, v, 6, rest);
    ValueAtSplit(bits, 0, 4, 2);
    ValueAtBound(bits, 0, 4);
    LowPart(ValueAt(bits, 0, 4), ValueAt(bits, 4, 2));
  }

  lemma LowPart(low: nat, high: nat)
    requires low < 16
    ensures (low + 16 * high) % 16 == low
  {
  }

  /** The type field is the low 4 bits of the value of the first character. */
  lemma TypeOfFirstSymbol(template: string)
    requires template != [] && Base64ToBinary(template).Some?
    ensures SymbolValue(template[0]).Some?
    ensures Read(Base64ToBinary(template).value, 0, 4) == Success(SymbolValue(template[0]).value % 16)
  {
    Base64Cons(template);
    LowBitsOfSextet(SymbolValue(template[0]).value, Base64ToBinary(template[1..]).value);
  }

  /** A text is rejected for its type exactly when it is well formed, not empty, and its first character's low 4 bits are not 14. */
  lemma DecodeRejectsWrongType(template: string)
    ensures Decode(template) == Failure(WrongType)
        <==> Base64ToBinary(template).Some? && template != []
             && SymbolValue(template[0]).Some? && SymbolValue(template[0]).value % 16 != DefaultTemplateType
  {
    if Base64ToBinary(template).Some? {
      var bits := Base64ToBinary(template).value;
      DecodeBitsErrors(bits, template);
      if template != [] {
        TypeOfFirstSymbol(template);
      }
    }
  }

  // ------------------------------------------------------------ the skill loop

  /** The read of skill slot `j` of a loop that starts at `at`. */
  function SlotRead(bits: Bits, at: nat, width: nat, j: nat): Result<nat, DecodeError> {
    Read(bits, at + j * width, width)
  }

  lemma SlotShift(bits: Bits, at: nat, width: nat, j: nat)
    ensures SlotRead(bits, at + width, width, j) == SlotRead(bits, at, width, j + 1)
  {
    assert at + width + j * width == at + (j + 1) * width;
  }

  /** The skill loop succeeds exactly when each of its slots is there and is not zero. */
  lemma {:induction false} ReadSkillsSucceeds(bits: Bits, at: nat, width: nat, count: nat, acc: seq<nat>)
    ensures ReadSkills(bits, at, width, count, acc).Success?
        <==> forall j :: 0 <= j < count ==> SlotRead(bits, at, width, j).Success? && SlotRead(bits, at, width, j).value != 0
    decreases count
  {
    if count > 0 {
      var first := Read(bits, at, width);
      var next := at + width;
      assert SlotRead(bits, at, width, 0) == first;
      forall j | 0 <= j < count - 1
        ensures SlotRead(bits, next, width, j) == SlotRead(bits, at, width, j + 1)
      {
        SlotShift(bits, at, width, j);
      }
      if first.Success? && first.value != 0 {
        ReadSkillsSucceeds(bits, next, width, count - 1, acc + [first.value]);
        if forall j :: 0 <= j < count - 1 ==> SlotRead(bits, next, width, j).Success? && SlotRead(bits, next, width, j).value != 0 {
          forall j | 0 <= j < count
            ensures SlotRead(bits, at, width, j).Success? && SlotRead(bits, at, width, j).value != 0
          {
            if j > 0 {
              assert SlotRead(bits, next, width, j - 1) == SlotRead(bits, at, width, j);
            }
          }
        }
      }
    }
  }

  /** Every skill id the loop reads fits the slot width. */
  lemma {:induction false} ReadSkillsBound(bits: Bits, at: nat, width: nat, count: nat, acc: seq<nat>)
    requires ReadSkills(bits, at, width, count, acc).Success?
    requires forall k :: 0 <= k < |acc| ==> acc[k] < Pow2(width)
    ensures forall k :: 0 <= k < |ReadSkills(bits, at, width, count, acc).value| ==>
      ReadSkills(bits, at, width, count, acc).value[k] < Pow2(width)
    decreases count
  {
    if count > 0 {
      var skill := Read(bits, at, width).value;
      ValueAtBound(bits, at, width);
      ReadSkillsBound(bits, at + width, width, count - 1, acc + [skill]);
    }
  }

  /** Slot `j` of the skill loop holds the id read at `at + j * width`: ids are kept in stream order. */
  lemma {:induction false} ReadSkillsContents(bits: Bits, at: nat, width: nat, count: nat, acc: seq<nat>, j: nat)
    requires ReadSkills(bits, at, width, count, acc).Success? && j < count
    ensures |acc| + j < |ReadSkills(bits, at, width, count, acc).value|
    ensures SlotRead(bits, at, width, j).Success?
    ensures ReadSkills(bits, at, width, count, acc).value[|acc| + j] == SlotRead(bits, at, width, j).value
    decreases count
  {
    var skill := Read(bits, at, width).value;
    var next := at + width;
    ReadSkillsShape(bits, next, width, count - 1, acc + [skill]);
    if j == 0 {
      assert SlotRead(bits, at, width, 0) == Read(bits, at, width);
      assert (acc + [skill])[|acc|] == skill;
    } else {
      ReadSkillsContents(bits, next, width, count - 1, acc + [skill], j - 1);
      SlotShift(bits, at, width, j - 1);
    }
  }

  /** The skill section yields eight ids, none zero and each below 2^23, the widest a 4-bit excess over 8 allows. */
  lemma SkillSectionFits(bits: Bits, at: nat)
    requires ReadSkillSection(bits, at).Success?
    ensures var skills := ReadSkillSection(bits, at).value;
      |skills| == SkillSlots && forall k :: 0 <= k < |skills| ==> 0 < skills[k] < 0x80_0000
  {
    var skillExcess := Read(bits, at, 4).value;
    var width := skillExcess + 8;
    assert ReadSkillSection(bits, at) == ReadSkills(bits, at + 4, width, SkillSlots, []);
    ReadSkillsShape(bits, at + 4, width, SkillSlots, []);
    ReadSkillsBound(bits, at + 4, width, SkillSlots, []);
    ValueAtBound(bits, at, 4);
    WidthBounds(0, skillExcess);
    Pow2Widths();
  }

  /** The powers of two behind the field limits of `encodeSkillbar`. */
  lemma Pow2Widths()
    ensures Pow2(4) == 16 && Pow2(10) == 0x400 && Pow2(19) == 0x8_0000 && Pow2(23) == 0x80_0000
  {
  }

  // ------------------------------------------------------------ cursor moves

  /**
    The header reads move the cursor by exactly the widths they read,
    4 + 4 + 2 + 2 * (2 * selector + 4) + 4 + 4 bits, with professions 4 to
    10 bits wide and attribute ids 4 to 19; each value fits its field.
   */
  lemma DecodeHeaderWidths(bits: Bits)
    requires DecodeHeader(bits).Success?
    ensures Read(bits, 8, 2).Success? && Read(bits, 8, 2).value < 4
    ensures var header := DecodeHeader(bits).value;
      var professionWidth := Read(bits, 8, 2).value * 2 + 4;
      && 4 <= professionWidth <= 10
      && header.attributesAt == 4 + 4 + 2 + professionWidth + professionWidth + 4 + 4 <= |bits|
      && header.version < 16 && header.attributeCount < 16
      && header.primary < Pow2(professionWidth) && header.secondary < Pow2(professionWidth)
      && 4 <= header.attributeWidth <= 19
  {
    assert Pow2(2) == 4 && Pow2(4) == 16;
    var professionWidth := Read(bits, 8, 2).value * 2 + 4;
    ValueAtBound(bits, 4, 4);
    ValueAtBound(bits, 8, 2);
    ValueAtBound(bits, 10, professionWidth);
    ValueAtBound(bits, 10 + professionWidth, professionWidth);
    ValueAtBound(bits, 10 + 2 * professionWidth, 4);
    ValueAtBound(bits, 14 + 2 * professionWidth, 4);
  }

  /** The header values fit the field widths `encodeSkillbar` writes: professions below 2^10, attribute ids at most 19 bits. */
  lemma HeaderFits(bits: Bits)
    requires DecodeHeader(bits).Success?
    ensures var header := DecodeHeader(bits).value;
      && header.version < 16 && header.attributeCount < 16
      && header.primary < 0x400 && header.secondary < 0x400
      && Pow2(header.attributeWidth) <= 0x8_0000
  {
    var header := DecodeHeader(bits).value;
    DecodeHeaderWidths(bits);
    Pow2Monotone(Read(bits, 8, 2).value * 2 + 4, 10);
    Pow2Monotone(header.attributeWidth, 19);
    Pow2Widths();
  }

  /** The attribute loop moves the cursor by `idWidth + 4` bits per pair and, reading any pair, stays within the stream. */
  lemma {:induction false} ReadAttributesAdvance(bits: Bits, at: nat, count: nat, idWidth: nat, acc: map<nat, nat>)
    requires ReadAttributes(bits, at, count, idWidth, acc).Success?
    ensures ReadAttributes(bits, at, count, idWidth, acc).value.1 == at + PairsWidth(count, idWidth)
    ensures count > 0 ==> ReadAttributes(bits, at, count, idWidth, acc).value.1 <= |bits|
    decreases count
  {
    if count == 0 {
      assert PairsWidth(0, idWidth) == 0;
    } else {
      var id, level := Read(bits, at, idWidth).value, Read(bits, at + idWidth, 4).value;
      ReadAttributesAdvance(bits, at + idWidth + 4, count - 1, idWidth, acc[id := level]);
      PairsWidthStep(count, idWidth);
    }
  }

  /** The attribute loop adds at most one key per pair. */
  lemma {:induction false} ReadAttributesKeyCount(bits: Bits, at: nat, count: nat, idWidth: nat, acc: map<nat, nat>)
    requires ReadAttributes(bits, at, count, idWidth, acc).Success?
    ensures |ReadAttributes(bits, at, count, idWidth, acc).value.0.Keys| <= |acc.Keys| + count
    decreases count
  {
    if count > 0 {
      var id, level := Read(bits, at, idWidth).value, Read(bits, at + idWidth, 4).value;
      var next := acc[id := level];
      assert next.Keys == acc.Keys + {id};
      ReadAttributesKeyCount(bits, at + idWidth + 4, count - 1, idWidth, next);
    }
  }

  /** Every key the attribute loop adds fits the id width with a level below 16; a key it does not touch keeps its level. */
  lemma {:induction false} ReadAttributesKeys(bits: Bits, at: nat, count: nat, idWidth: nat, acc: map<nat, nat>)
    requires ReadAttributes(bits, at, count, idWidth, acc).Success?
    ensures var levels := ReadAttributes(bits, at, count, idWidth, acc).value.0;
      forall id :: id in levels ==> (id in acc && levels[id] == acc[id]) || (id < Pow2(idWidth) && levels[id] < 16)
    decreases count
  {
    if count > 0 {
      var id, level := Read(bits, at, idWidth).value, Read(bits, at + idWidth, 4).value;
      Pow2Widths();
      ValueAtBound(bits, at, idWidth);
      ValueAtBound(bits, at + idWidth, 4);
      ReadAttributesKeys(bits, at + idWidth + 4, count - 1, idWidth, acc[id := level]);
    }
  }

  /** The id of the `i`-th attribute pair read from `at`. */
  function PairId(bits: Bits, at: nat, idWidth: nat, i: nat): Result<nat, DecodeError> {
    Read(bits, at + PairsWidth(i, idWidth), idWidth)
  }

  /** The level of the `i`-th attribute pair read from `at`. */
  function PairLevel(bits: Bits, at: nat, idWidth: nat, i: nat): Result<nat, DecodeError> {
    Read(bits, at + PairsWidth(i, idWidth) + idWidth, 4)
  }

  /** Pair `i + 1` from `at` is pair `i` from the end of the first pair. */
  lemma PairShift(bits: Bits, at: nat, idWidth: nat, i: nat)
    ensures PairId(bits, at + idWidth + 4, idWidth, i) == PairId(bits, at, idWidth, i + 1)
    ensures PairLevel(bits, at + idWidth + 4, idWidth, i) == PairLevel(bits, at, idWidth, i + 1)
  {
    PairsWidthStep(i + 1, idWidth);
  }
  /** Every key of the decoded map was already there or is the id of a pair the loop read: nothing else is added. */
  lemma {:induction false} ReadAttributesKeysRead(bits: Bits, at: nat, count: nat, idWidth: nat, acc: map<nat, nat>)
    requires ReadAttributes(bits, at, count, idWidth, acc).Success?
    ensures forall id :: id in ReadAttributes(bits, at, count, idWidth, acc).value.0 ==>
      id in acc || exists i :: 0 <= i < count && PairId(bits, at, idWidth, i) == Success(id)
    decreases count
  {
    if count > 0 {
      var id, level := Read(bits, at, idWidth).value, Read(bits, at + idWidth, 4).value;
      var next := at + idWidth + 4;
      var levels := ReadAttributes(bits, at, count, idWidth, acc).value.0;
      assert levels == ReadAttributes(bits, next, count - 1, idWidth, acc[id := level]).value.0;
      ReadAttributesKeysRead(bits, next, count - 1, idWidth, acc[id := level]);
      forall key | key in levels && key !in acc
        ensures exists i :: 0 <= i < count && PairId(bits, at, idWidth, i) == Success(key)
      {
        if key == id {
          assert PairId(bits, at, idWidth, 0) == Success(id);
        } else {
          var i :| 0 <= i < count - 1 && PairId(bits, next, idWidth, i) == Success(key);
          PairShift(bits, at, idWidth, i);
        }
      }
    }
  }


  /** A key that none of the pairs still to be read carries keeps the level it had. */
  lemma {:induction false} ReadAttributesKeepsUntouched(bits: Bits, at: nat, count: nat, idWidth: nat, acc: map<nat, nat>, key: nat)
    requires ReadAttributes(bits, at, count, idWidth, acc).Success? && key in acc
    requires forall i :: 0 <= i < count ==> PairId(bits, at, idWidth, i) != Success(key)
    ensures var levels := ReadAttributes(bits, at, count, idWidth, acc).value.0;
      key in levels && levels[key] == acc[key]
    decreases count
  {
    if count > 0 {
      var id, level := Read(bits, at, idWidth).value, Read(bits, at + idWidth, 4).value;
      assert PairId(bits, at, idWidth, 0) == Success(id);
      var next := at + idWidth + 4;
      forall i | 0 <= i < count - 1
        ensures PairId(bits, next, idWidth, i) != Success(key)
      {
        PairShift(bits, at, idWidth, i);
      }
      ReadAttributesKeepsUntouched(bits, next, count - 1, idWidth, acc[id := level], key);
    }
  }

  /**
    Every pair whose id no later pair repeats is in the decoded map with its
    own level: of pairs with the same id, the one read last wins.
   */
  lemma {:induction false} ReadAttributesLastWins(bits: Bits, at: nat, count: nat, idWidth: nat, acc: map<nat, nat>, j: nat)
    requires ReadAttributes(bits, at, count, idWidth, acc).Success? && j < count
    requires forall i :: j < i < count ==> PairId(bits, at, idWidth, i) != PairId(bits, at, idWidth, j)
    ensures PairId(bits, at, idWidth, j).Success? && PairLevel(bits, at, idWidth, j).Success?
    ensures var levels := ReadAttributes(bits, at, count, idWidth, acc).value.0;
      PairId(bits, at, idWidth, j).value in levels
      && levels[PairId(bits, at, idWidth, j).value] == PairLevel(bits, at, idWidth, j).value
    decreases count
  {
    var id, level := Read(bits, at, idWidth).value, Read(bits, at + idWidth, 4).value;
    var next := at + idWidth + 4;
    if j == 0 {
      assert PairId(bits, at, idWidth, 0) == Success(id) && PairLevel(bits, at, idWidth, 0) == Success(level);
      forall i | 0 <= i < count - 1
        ensures PairId(bits, next, idWidth, i) != Success(id)
      {
        PairShift(bits, at, idWidth, i);
      }
      ReadAttributesKeepsUntouched(bits, next, count - 1, idWidth, acc[id := level], id);
    } else {
      PairShift(bits, at, idWidth, j - 1);
      forall i | j - 1 < i < count - 1
        ensures PairId(bits, next, idWidth, i) != PairId(bits, next, idWidth, j - 1)
      {
        PairShift(bits, at, idWidth, i);
      }
      ReadAttributesLastWins(bits, next, count - 1, idWidth, acc[id := level], j - 1);
    }
  }

  // ----------------------------------------------------------- success shape

  /** A successful decode, taken apart into its header, its attribute pairs and its skill section. */
  lemma DecodeParts(template: string) returns (bits: Bits, header: Header, pairs: (map<nat, nat>, nat), skills: seq<nat>)
    requires Decode(template).Success?
    ensures Base64ToBinary(template) == Some(bits)
    ensures DecodeHeader(bits) == Success(header)
    ensures ReadAttributes(bits, header.attributesAt, header.attributeCount, header.attributeWidth, map[]) == Success(pairs)
    ensures ReadSkillSection(bits, pairs.1) == Success(skills)
    ensures Decode(template)
         == Success(Skillbar(DefaultTemplateType, header.version, header.primary, header.secondary, pairs.0, skills, template))
  {
    bits := Base64ToBinary(template).value;
    header := DecodeHeader(bits).value;
    pairs := ReadAttributes(bits, header.attributesAt, header.attributeCount, header.attributeWidth, map[]).value;
    skills := ReadSkillSection(bits, pairs.1).value;
  }

  /** A decoded bar has type 14, eight non-zero skills and the input text as its template. */
  lemma DecodeShape(template: string)
    ensures Decode(template).Success? ==>
      var skillbar := Decode(template).value;
      && skillbar.templateType == DefaultTemplateType
      && |skillbar.skills| == SkillSlots
      && (forall k :: 0 <= k < SkillSlots ==> skillbar.skills[k] != 0)
      && skillbar.template == template
  {
    if Decode(template).Success? {
      var bits, header, pairs, skills := DecodeParts(template);
      SkillSectionFits(bits, pairs.1);
    }
  }

  /** Skill `k` of a skill section is the `k`-th read of the skill width after the 4-bit excess. */
  lemma SkillSectionRead(bits: Bits, at: nat, k: nat)
    requires ReadSkillSection(bits, at).Success? && k < SkillSlots
    ensures Read(bits, at, 4).Success? && k < |ReadSkillSection(bits, at).value|
    ensures SlotRead(bits, at + 4, Read(bits, at, 4).value + 8, k) == Success(ReadSkillSection(bits, at).value[k])
  {
    var width := Read(bits, at, 4).value + 8;
    assert ReadSkillSection(bits, at) == ReadSkills(bits, at + 4, width, SkillSlots, []);
    ReadSkillsContents(bits, at + 4, width, SkillSlots, [], k);
  }

  /**
    Skill `k` of a decoded bar is the `k`-th read of the skill width, made
    after the attribute pairs and the 4-bit skill excess.
   */
  lemma DecodedSkillsRead(template: string, k: nat) returns (bits: Bits, section: nat)
    requires Decode(template).Success? && k < SkillSlots
    ensures Base64ToBinary(template) == Some(bits) && DecodeHeader(bits).Success?
    ensures var header := DecodeHeader(bits).value;
      section == header.attributesAt + PairsWidth(header.attributeCount, header.attributeWidth)
    ensures Read(bits, section, 4).Success? && |Decode(template).value.skills| == SkillSlots
    ensures SlotRead(bits, section + 4, Read(bits, section, 4).value + 8, k) == Success(Decode(template).value.skills[k])
  {
    var header, pairs, skills;
    bits, header, pairs, skills := DecodeParts(template);
    ReadAttributesAdvance(bits, header.attributesAt, header.attributeCount, header.attributeWidth, map[]);
    section := pairs.1;
    SkillSectionFits(bits, section);
    SkillSectionRead(bits, section, k);
  }

  /** Every attribute id of a decoded bar is the id of one of the pairs the attribute loop read. */
  lemma DecodedAttributesRead(template: string) returns (bits: Bits)
    requires Decode(template).Success?
    ensures Base64ToBinary(template) == Some(bits) && DecodeHeader(bits).Success?
    ensures var header := DecodeHeader(bits).value;
      forall id :: id in Decode(template).value.attributes ==>
        exists i :: 0 <= i < header.attributeCount && PairId(bits, header.attributesAt, header.attributeWidth, i) == Success(id)
  {
    var header, pairs, skills;
    bits, header, pairs, skills := DecodeParts(template);
    ReadAttributesKeysRead(bits, header.attributesAt, header.attributeCount, header.attributeWidth, map[]);
  }

  /** A pair whose id no later pair repeats gives its level to that id in the decoded bar. */
  lemma DecodedAttributeLevels(template: string, j: nat) returns (bits: Bits)
    requires Decode(template).Success?
    ensures Base64ToBinary(template) == Some(bits) && DecodeHeader(bits).Success?
    ensures var header := DecodeHeader(bits).value;
      var at, width := header.attributesAt, header.attributeWidth;
      j < header.attributeCount && (forall i :: j < i < header.attributeCount ==> PairId(bits, at, width, i) != PairId(bits, at, width, j))
      ==> && PairId(bits, at, width, j).Success? && PairLevel(bits, at, width, j).Success?
          && PairId(bits, at, width, j).value in Decode(template).value.attributes
          && Decode(template).value.attributes[PairId(bits, at, width, j).value] == PairLevel(bits, at, width, j).value
  {
    var header, pairs, skills;
    bits, header, pairs, skills := DecodeParts(template);
    var at, width := header.attributesAt, header.attributeWidth;
    if j < header.attributeCount && (forall i :: j < i < header.attributeCount ==> PairId(bits, at, width, i) != PairId(bits, at, width, j)) {
      ReadAttributesLastWins(bits, at, header.attributeCount, width, map[], j);
    }
  }

  // -------------------------------------------------------------- re-encoding

  /** Every bar `decodeTemplate` accepts has fields that fit the widths `encodeSkillbar` gives them. */
  lemma DecodedIsEncodable(template: string)
    requires Decode(template).Success?
    ensures Encodable(Decode(template).value)
  {
    var bits, header, pairs, skills := DecodeParts(template);
    HeaderFits(bits);
    ReadAttributesKeyCount(bits, header.attributesAt, header.attributeCount, header.attributeWidth, map[]);
    ReadAttributesKeys(bits, header.attributesAt, header.attributeCount, header.attributeWidth, map[]);
    SkillSectionFits(bits, pairs.1);
  }
  /** The bits `encodeSkillbar` writes do not depend on the template text. */
  lemma EncodeIgnoresTemplate(skillbar: Skillbar, template: string)
    ensures EncodeSkillbar(skillbar.(template := template)) == EncodeSkillbar(skillbar)
  {
    assert EncodeFields(skillbar.(template := template), ProfessionWidth(skillbar.primary, skillbar.secondary))
        == EncodeFields(skillbar, ProfessionWidth(skillbar.primary, skillbar.secondary));
  }

  /** Re-encoding a decoded bar is stable: the new text decodes to the same bar and encodes to itself. */
  lemma ReencodeIsStable(template: string)
    requires Decode(template).Success?
    ensures var skillbar := Decode(template).value;
      var again := EncodeSkillbar(skillbar);
      && Decode(again) == Success(skillbar.(template := again))
      && EncodeSkillbar(Decode(again).value) == again
  {
    var skillbar := Decode(template).value;
    var again := EncodeSkillbar(skillbar);
    DecodedIsEncodable(template);
    DecodeEncode(skillbar);
    EncodeIgnoresTemplate(skillbar, again);
  }
}
