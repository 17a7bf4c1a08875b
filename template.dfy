/**
  The field-schema codec of the skill-template codec: the layout of a
  template's fields, decoding with a forward-only cursor, and encoding with
  minimal field widths.

  Layout, in stream order (every number least-significant bit first):
    type (4) | version (4) | profession selector s (2) |
    primary (2s+4) | secondary (2s+4) | attribute count n (4) |
    attribute excess a (4) | n times: id (a+4), level (4) |
    skill excess k (4) | 8 times: skill id (k+8)
 */
module Template {
  import opened Results
  import opened BitValue
  import opened Alphabet

  /** `DEFAULT_TEMPLATE_TYPE`: the only template type decoding accepts. */
  const DefaultTemplateType: nat := 14

  /** Number of skill slots on a bar. */
  const SkillSlots: nat := 8

  /** `Skillbar`; `templateType` is the source's `type` field. */
  datatype Skillbar = Skillbar(
    templateType: nat,
    version: nat,
    primary: nat,
    secondary: nat,
    attributes: map<nat, nat>,
    skills: seq<nat>,
    template: string)

  /** Why decoding produced no skill bar. */
  datatype DecodeError =
    | InvalidCharacter  // a symbol outside the alphabet (the source throws)
    | WrongType         // the type field is not 14 (the source returns null)
    | ZeroSkill         // a skill slot reads as 0 (the source returns null)
    | Truncated         // a field reaches past the end of the bit stream

  // ---------------------------------------------------------------- decoding

  /** One call of the `read` closure: `width` bits at the cursor `at`. */
  function Read(bits: Bits, at: nat, width: nat): (r: Result<nat, DecodeError>)
    ensures r.Success? <==> at + width <= |bits|
    ensures r.Failure? ==> r.error == Truncated
  {
    if at + width <= |bits| then Success(ValueAt(bits, at, width)) else Failure(Truncated)
  }

  /** A successful read yields a value below 2^width that re-encodes to exactly the bits read. */
  lemma ReadFits(bits: Bits, at: nat, width: nat)
    requires Read(bits, at, width).Success?
    ensures Read(bits, at, width).value < Pow2(width)
    ensures width >= 1 ==> ValueToBinary(Read(bits, at, width).value, width) == bits[at .. at + width]
  {
    ValueAtIsBinaryToValue(bits, at, width);
    if width >= 1 {
      FixedWidthRoundTrip(bits[at .. at + width]);
    }
  }

  /**
    The attribute loop: `count` (id, level) pairs from the cursor `at`, the id
    first; a repeated id keeps the level read last.
   */
  function ReadAttributes(bits: Bits, at: nat, count: nat, idWidth: nat, acc: map<nat, nat>)
    : (r: Result<(map<nat, nat>, nat), DecodeError>)
    ensures r.Failure? ==> r.error == Truncated
    decreases count
  {
    if count == 0 then
      Success((acc, at))
    else
      var id :- Read(bits, at, idWidth);
      var level :- Read(bits, at + idWidth, 4);
      ReadAttributes(bits, at + idWidth + 4, count - 1, idWidth, acc[id := level])
  }

  /** The skill loop: `count` ids of `width` bits from the cursor `at`; a zero id rejects the bar. */
  function ReadSkills(bits: Bits, at: nat, width: nat, count: nat, acc: seq<nat>)
    : (r: Result<seq<nat>, DecodeError>)
    ensures r.Failure? ==> r.error == ZeroSkill || r.error == Truncated
    decreases count
  {
    if count == 0 then
      Success(acc)
    else
      var skill :- Read(bits, at, width);
      if skill == 0 then Failure(ZeroSkill)
      else ReadSkills(bits, at + width, width, count - 1, acc + [skill])
  }

  /** One turn of the attribute loop: two reads, then the remaining pairs from the moved cursor. */
  lemma ReadAttributesStep(bits: Bits, at: nat, count: nat, idWidth: nat, acc: map<nat, nat>)
    requires count > 0
    ensures ReadAttributes(bits, at, count, idWidth, acc)
         == if Read(bits, at, idWidth).Failure? || Read(bits, at + idWidth, 4).Failure? then Failure(Truncated)
            else ReadAttributes(bits, at + idWidth + 4, count - 1, idWidth,
                                acc[Read(bits, at, idWidth).value := Read(bits, at + idWidth, 4).value])
  {
  }

  /** One turn of the skill loop: a read, a zero check, then the remaining slots from the moved cursor. */
  lemma ReadSkillsStep(bits: Bits, at: nat, width: nat, count: nat, acc: seq<nat>)
    requires count > 0
    ensures ReadSkills(bits, at, width, count, acc)
         == if Read(bits, at, width).Failure? then Failure(Truncated)
            else if Read(bits, at, width).value == 0 then Failure(ZeroSkill)
            else ReadSkills(bits, at + width, width, count - 1, acc + [Read(bits, at, width).value])
  {
  }

  /** The skill loop appends exactly `count` ids to what it has read, none of them zero. */
  lemma {:induction false} ReadSkillsShape(bits: Bits, at: nat, width: nat, count: nat, acc: seq<nat>)
    requires ReadSkills(bits, at, width, count, acc).Success?
    ensures var skills := ReadSkills(bits, at, width, count, acc).value;
      |skills| == |acc| + count && skills[..|acc|] == acc
      && forall k :: |acc| <= k < |skills| ==> skills[k] != 0
    decreases count
  {
    if count > 0 {
      var skill := Read(bits, at, width).value;
      ReadSkillsShape(bits, at + width, width, count - 1, acc + [skill]);
    }
  }

  /** The fixed-layout fields in front of the attribute pairs, and where the pairs start. */
  datatype Header = Header(
    version: nat,
    primary: nat,
    secondary: nat,
    attributeCount: nat,
    attributeWidth: nat,
    attributesAt: nat)

  /** The profession selector at bit 8 and the two professions in the width it announces. */
  function DecodeProfessions(bits: Bits): Result<(nat, nat, nat), DecodeError> {
    var selector :- Read(bits, 8, 2);
    var professionWidth := selector * 2 + 4;
    var primary :- Read(bits, 10, professionWidth);
    var secondary :- Read(bits, 10 + professionWidth, professionWidth);
    Success((professionWidth, primary, secondary))
  }

  /** The first reads of `decodeTemplate`: type (checked against 14), version, professions, attribute count and width. */
  function DecodeHeader(bits: Bits): Result<Header, DecodeError> {
    var templateType :- Read(bits, 0, 4);
    if templateType != DefaultTemplateType then Failure(WrongType)
    else
      var version :- Read(bits, 4, 4);
      var professions :- DecodeProfessions(bits);
      var attributeCount :- Read(bits, 10 + 2 * professions.0, 4);
      var attributeExcess :- Read(bits, 14 + 2 * professions.0, 4);
      Success(Header(version, professions.1, professions.2, attributeCount, attributeExcess + 4, 18 + 2 * professions.0))
  }

  lemma DecodeProfessionsReads(bits: Bits, selector: nat, primary: nat, secondary: nat)
    requires Read(bits, 8, 2) == Success(selector)
    requires Read(bits, 10, selector * 2 + 4) == Success(primary)
    requires Read(bits, 10 + (selector * 2 + 4), selector * 2 + 4) == Success(secondary)
    ensures DecodeProfessions(bits) == Success((selector * 2 + 4, primary, secondary))
  {
  }

  lemma DecodeHeaderReads(bits: Bits, version: nat, selector: nat, primary: nat, secondary: nat,
                          attributeCount: nat, attributeExcess: nat)
    requires Read(bits, 0, 4) == Success(DefaultTemplateType)
    requires Read(bits, 4, 4) == Success(version)
    requires Read(bits, 8, 2) == Success(selector)
    requires Read(bits, 10, selector * 2 + 4) == Success(primary)
    requires Read(bits, 10 + (selector * 2 + 4), selector * 2 + 4) == Success(secondary)
    requires Read(bits, 10 + 2 * (selector * 2 + 4), 4) == Success(attributeCount)
    requires Read(bits, 14 + 2 * (selector * 2 + 4), 4) == Success(attributeExcess)
    ensures DecodeHeader(bits)
         == Success(Header(version, primary, secondary, attributeCount, attributeExcess + 4, 18 + 2 * (selector * 2 + 4)))
  {
    DecodeProfessionsReads(bits, selector, primary, secondary);
  }

  /** The fields of `decodeTemplate`, read from the bit stream in one forward pass. */
  function DecodeBits(bits: Bits, template: string): Result<Skillbar, DecodeError> {
    var header :- DecodeHeader(bits);
    DecodeBody(bits, header, template)
  }

  /** The fields after the header: the attribute pairs, the skill width and the eight skills. */
  function DecodeBody(bits: Bits, header: Header, template: string): Result<Skillbar, DecodeError> {
    var attributes :- ReadAttributes(bits, header.attributesAt, header.attributeCount, header.attributeWidth, map[]);
    var skills :- ReadSkillSection(bits, attributes.1);
    Success(Skillbar(DefaultTemplateType, header.version, header.primary, header.secondary,
                     attributes.0, skills, template))
  }

  /** The skill width read at `at`, then the eight skills of that width after it. */
  function ReadSkillSection(bits: Bits, at: nat): Result<seq<nat>, DecodeError> {
    var skillExcess :- Read(bits, at, 4);
    ReadSkills(bits, at + 4, skillExcess + 8, SkillSlots, [])
  }

  /** `decodeTemplate`: a skill bar, or why there is none. */
  function Decode(template: string): (r: Result<Skillbar, DecodeError>)
    ensures r == Failure(InvalidCharacter) <==> Base64ToBinary(template).None?
    ensures r.Success? ==> r.value.templateType == DefaultTemplateType && r.value.template == template
  {
    match Base64ToBinary(template)
    case None => Failure(InvalidCharacter)
    case Some(bits) => DecodeBits(bits, template)
  }

  /** A 4-bit excess widens an id field to at most 19 bits and a skill field to at most 23. */
  lemma WidthBounds(attributeExcess: nat, skillExcess: nat)
    requires attributeExcess < Pow2(4) && skillExcess < Pow2(4)
    ensures Pow2(attributeExcess + 4) <= Pow2(19)
    ensures Pow2(skillExcess + 8) <= Pow2(23)
  {
    assert Pow2(4) == 16;
    Pow2Monotone(attributeExcess + 4, 19);
    Pow2Monotone(skillExcess + 8, 23);
  }

  lemma {:induction false} Pow2Monotone(a: nat, b: nat)
    requires a <= b
    ensures Pow2(a) <= Pow2(b)
    decreases b
  {
    if a < b {
      Pow2Monotone(a, b - 1);
    }
  }

  /**
    `decodeTemplate` as the source runs it: a cursor that every read moves
    forward by the width read, an attribute map filled in a loop and an
    eight-slot skill array filled in a loop that stops at a zero id.
   */
  method DecodeTemplate(template: string) returns (r: Result<Skillbar, DecodeError>)
    ensures r == Decode(template)
  {
    var decoded := Base64ToBinary(template);
    if decoded.None? {
      return Failure(InvalidCharacter);
    }
    r := ReadTemplate(decoded.value, template);
  }

  /** The header reads of `decodeTemplate`: a cursor moved forward by the width of every read. */
  method ReadHeader(binary: Bits) returns (r: Result<Header, DecodeError>)
    ensures r == DecodeHeader(binary)
  {
    var offset: nat := 0;
    var templateType :- Read(binary, offset, 4);
    offset := offset + 4;
    if templateType != DefaultTemplateType {
      return Failure(WrongType);
    }
    var version :- Read(binary, offset, 4);
    offset := offset + 4;
    var selector :- Read(binary, offset, 2);
    offset := offset + 2;
    var professionWidth := selector * 2 + 4;
    assert offset == 10;
    var primary :- Read(binary, offset, professionWidth);
    offset := offset + professionWidth;
    assert offset == 10 + professionWidth;
    var secondary :- Read(binary, offset, professionWidth);
    offset := offset + professionWidth;
    assert offset == 10 + 2 * professionWidth;
    var attributeCount :- Read(binary, offset, 4);
    offset := offset + 4;
    assert offset == 14 + 2 * professionWidth;
    var attributeExcess :- Read(binary, offset, 4);
    offset := offset + 4;
    DecodeHeaderReads(binary, version, selector, primary, secondary, attributeCount, attributeExcess);
    return Success(Header(version, primary, secondary, attributeCount, attributeExcess + 4, offset));
  }

  /** The reads of `decodeTemplate` over the bit stream `binary`, from the first field on. */
  method ReadTemplate(binary: Bits, template: string) returns (r: Result<Skillbar, DecodeError>)
    ensures r == DecodeBits(binary, template)
  {
    var header :- ReadHeader(binary);
    r := ReadBody(binary, header, template);
  }

  /** The reads of `decodeTemplate` after the header, from the cursor the header reads leave. */
  method ReadBody(binary: Bits, header: Header, template: string) returns (r: Result<Skillbar, DecodeError>)
    ensures r == DecodeBody(binary, header, template)
  {
    var attributes :- ReadAttributeLoop(binary, header.attributesAt, header.attributeCount, header.attributeWidth);
    assert attributes == ReadAttributes(binary, header.attributesAt, header.attributeCount, header.attributeWidth, map[]).value;
    var skillExcess :- Read(binary, attributes.1, 4);
    var skills :- ReadSkillLoop(binary, attributes.1 + 4, skillExcess + 8);
    assert skills == ReadSkills(binary, attributes.1 + 4, skillExcess + 8, SkillSlots, []).value;
    return Success(Skillbar(DefaultTemplateType, header.version, header.primary, header.secondary,
                            attributes.0, skills, template));
  }

  /** The attribute loop of `decodeTemplate`: `count` (id, level) pairs into a map, and the cursor after them. */
  method ReadAttributeLoop(binary: Bits, at: nat, count: nat, idWidth: nat)
    returns (r: Result<(map<nat, nat>, nat), DecodeError>)
    ensures r == ReadAttributes(binary, at, count, idWidth, map[])
  {
    var offset: nat := at;
    var attributes: map<nat, nat> := map[];
    var i := 0;
    while i < count
      invariant 0 <= i <= count
      invariant ReadAttributes(binary, offset, count - i, idWidth, attributes)
             == ReadAttributes(binary, at, count, idWidth, map[])
    {
      ReadAttributesStep(binary, offset, count - i, idWidth, attributes);
      var id :- Read(binary, offset, idWidth);
      offset := offset + idWidth;
      var level :- Read(binary, offset, 4);
      offset := offset + 4;
      attributes := attributes[id := level];
      i := i + 1;
    }
    return Success((attributes, offset));
  }

  /** The skill loop of `decodeTemplate`: eight ids into an array, stopping at the first zero. */
  method ReadSkillLoop(binary: Bits, at: nat, width: nat) returns (r: Result<seq<nat>, DecodeError>)
    ensures r == ReadSkills(binary, at, width, SkillSlots, [])
  {
    var offset: nat := at;
    var skills := new nat[SkillSlots];
    var j := 0;
    while j < SkillSlots
      invariant 0 <= j <= SkillSlots
      invariant ReadSkills(binary, offset, width, SkillSlots - j, skills[..j])
             == ReadSkills(binary, at, width, SkillSlots, [])
    {
      ghost var readSoFar := skills[..j];
      ReadSkillsStep(binary, offset, width, SkillSlots - j, readSoFar);
      var skill :- Read(binary, offset, width);
      offset := offset + width;
      skills[j] := skill;
      if skill == 0 {
        return Failure(ZeroSkill);
      }
      assert skills[..j + 1] == readSoFar + [skill];
      j := j + 1;
    }
    assert skills[..] == skills[..SkillSlots];
    return Success(skills[..]);
  }

  // ---------------------------------------------------------------- encoding

  /** `Math.max(floor, ...values.map(v => valueToBinary(v, 0).length))`. */
  function Widest(floor: nat, values: seq<nat>): (w: nat)
    ensures w >= floor
    ensures forall k :: 0 <= k < |values| ==> BitLen(values[k]) <= w
    ensures w == floor || exists k :: 0 <= k < |values| && BitLen(values[k]) == w
  {
    if values == [] then floor else Max(BitLen(values[0]), Widest(floor, values[1..]))
  }

  /** `Math.max(Math.ceil((width - 4) / 2), 0)`: the stored profession selector. */
  function Selector(professionWidth: nat): (r: nat)
    ensures professionWidth <= 4 ==> r == 0
    ensures professionWidth >= 4 ==> professionWidth - 4 <= 2 * r <= professionWidth - 3
  {
    if professionWidth <= 4 then 0 else (professionWidth - 3) / 2
  }

  /** `Math.max(width - minimum, 0)`: the stored excess of a field width. */
  function Excess(width: nat, minimum: nat): (r: nat)
    ensures minimum + r == Max(width, minimum)
  {
    if width <= minimum then 0 else width - minimum
  }

  /** The least element of a non-empty set of ids. */
  function Least(ids: set<nat>): (m: nat)
    requires ids != {}
    ensures m in ids && forall id :: id in ids ==> m <= id
  {
    LeastExists(ids);
    var m :| m in ids && forall id :: id in ids ==> m <= id;
    m
  }

  lemma LeastExists(ids: set<nat>)
    requires ids != {}
    ensures exists m :: m in ids && forall id :: id in ids ==> m <= id
  {
    var m := LeastOf(ids);
  }

  lemma {:induction false} LeastOf(ids: set<nat>) returns (m: nat)
    requires ids != {}
    ensures m in ids && forall id :: id in ids ==> m <= id
    decreases ids
  {
    var x :| x in ids;
    if ids == {x} {
      m := x;
    } else {
      var below := LeastOf(ids - {x});
      m := if x < below then x else below;
      forall id | id in ids
        ensures m <= id
      {
        if id != x {
          assert id in ids - {x};
        }
      }
    }
  }

  /** The attribute ids in the order `Object.keys` lists integer keys: ascending. */
  function SortedIds(ids: set<nat>): (r: seq<nat>)
    ensures forall k :: 0 <= k < |r| ==> r[k] in ids
    decreases ids
  {
    if ids == {} then []
    else
      var first := Least(ids);
      [first] + SortedIds(ids - {first})
  }

  /** The ids are listed each once, all of them, in strictly ascending order. */
  lemma {:induction false} SortedIdsOrdered(ids: set<nat>)
    ensures |SortedIds(ids)| == |ids|
    ensures forall id :: id in ids <==> id in SortedIds(ids)
    ensures forall a, b :: 0 <= a < b < |SortedIds(ids)| ==> SortedIds(ids)[a] < SortedIds(ids)[b]
    decreases ids
  {
    if ids != {} {
      var first := Least(ids);
      var rest := SortedIds(ids - {first});
      SortedIdsOrdered(ids - {first});
      assert SortedIds(ids) == [first] + rest;
      assert forall k :: 0 <= k < |rest| ==> first < rest[k];
    }
  }

  /** The attribute pairs: each id in `idWidth` bits, then its level in 4 bits. */
  function AttributeBits(attributes: map<nat, nat>, ids: seq<nat>, idWidth: nat): Bits
    requires forall k :: 0 <= k < |ids| ==> ids[k] in attributes
  {
    if ids == [] then []
    else
      ValueToBinary(ids[0], idWidth) + ValueToBinary(attributes[ids[0]], 4)
      + AttributeBits(attributes, ids[1..], idWidth)
  }

  /** The skill ids, each in `width` bits, in bar order. */
  function SkillBits(skills: seq<nat>, width: nat): Bits {
    if skills == [] then [] else ValueToBinary(skills[0], width) + SkillBits(skills[1..], width)
  }

  /** The bit stream of `encodeSkillbar`, given the profession width to write. */
  function EncodeFields(skillbar: Skillbar, professionWidth: nat): Bits {
    var ids := SortedIds(skillbar.attributes.Keys);
    var attributeWidth := Widest(4, ids);
    var skillWidth := Widest(8, skillbar.skills);
    ValueToBinary(skillbar.templateType, 4)
    + (ValueToBinary(skillbar.version, 4)
    + (ValueToBinary(Selector(professionWidth), 2)
    + (ValueToBinary(skillbar.primary, professionWidth)
    + (ValueToBinary(skillbar.secondary, professionWidth)
    + (ValueToBinary(|ids|, 4)
    + (ValueToBinary(Excess(attributeWidth, 4), 4)
    + (AttributeBits(skillbar.attributes, ids, attributeWidth)
    + (ValueToBinary(Excess(skillWidth, 8), 4)
    + SkillBits(skillbar.skills, skillWidth)))))))))
  }

  /** Skill fields of width at least 8 take at least 8 bits each. */
  lemma {:induction false} SkillBitsAtLeast(skills: seq<nat>, width: nat)
    requires 8 <= width
    ensures |SkillBits(skills, width)| >= 8 * |skills|
    decreases |skills|
  {
    if skills != [] {
      SkillBitsAtLeast(skills[1..], width);
    }
  }

  /** Attribute pairs with ids at least 4 bits wide take at least 4 + 4 bits each. */
  lemma {:induction false} AttributeBitsAtLeast(attributes: map<nat, nat>, ids: seq<nat>, idWidth: nat)
    requires forall k :: 0 <= k < |ids| ==> ids[k] in attributes
    requires 4 <= idWidth
    ensures |AttributeBits(attributes, ids, idWidth)| >= 8 * |ids|
    decreases |ids|
  {
    if ids != [] {
      AttributeBitsAtLeast(attributes, ids[1..], idWidth);
    }
  }

  /** The joined `template` array is as long as its ten fields together. */
  lemma EncodeFieldsLength(skillbar: Skillbar, professionWidth: nat)
    returns (ids: seq<nat>, attributeWidth: nat, skillWidth: nat)
    ensures ids == SortedIds(skillbar.attributes.Keys)
    ensures attributeWidth == Widest(4, ids) && skillWidth == Widest(8, skillbar.skills)
    ensures |EncodeFields(skillbar, professionWidth)|
         == |ValueToBinary(skillbar.templateType, 4)| + |ValueToBinary(skillbar.version, 4)|
          + |ValueToBinary(Selector(professionWidth), 2)|
          + |ValueToBinary(skillbar.primary, professionWidth)| + |ValueToBinary(skillbar.secondary, professionWidth)|
          + |ValueToBinary(|ids|, 4)| + |ValueToBinary(Excess(attributeWidth, 4), 4)|
          + |AttributeBits(skillbar.attributes, ids, attributeWidth)|
          + |ValueToBinary(Excess(skillWidth, 8), 4)| + |SkillBits(skillbar.skills, skillWidth)|
  {
    ids := SortedIds(skillbar.attributes.Keys);
    attributeWidth := Widest(4, ids);
    skillWidth := Widest(8, skillbar.skills);
  }

  /**
    `encodeSkillbar` writes no field narrower than its minimum: 4 bits for the
    type, version, count and the two excesses, 2 for the selector, the
    profession width for each profession, 4 + 4 for each attribute pair and
    8 for each skill.
   */
  lemma EncodeFieldsAtLeast(skillbar: Skillbar, professionWidth: nat)
    ensures |EncodeFields(skillbar, professionWidth)|
         >= 4 + 4 + 2 + 2 * professionWidth + 4 + 4 + 8 * |skillbar.attributes.Keys| + 4 + 8 * |skillbar.skills|
  {
    var ids, attributeWidth, skillWidth := EncodeFieldsLength(skillbar, professionWidth);
    SortedIdsOrdered(skillbar.attributes.Keys);
    AttributeBitsAtLeast(skillbar.attributes, ids, attributeWidth);
    SkillBitsAtLeast(skillbar.skills, skillWidth);
  }

  /** `Math.max(4, bit length of primary, bit length of secondary)`, as the source computes it. */
  function ProfessionWidthAsWritten(primary: nat, secondary: nat): (w: nat)
    ensures w >= 4 && BitLen(primary) <= w && BitLen(secondary) <= w
    ensures w == 4 || w == BitLen(primary) || w == BitLen(secondary)
  {
    var w := Widest(4, [primary, secondary]);
    assert [primary, secondary][0] == primary && [primary, secondary][1] == secondary;
    w
  }

  /** The profession width rounded up to the even width `2 * selector + 4` that decoding reads. */
  function ProfessionWidth(primary: nat, secondary: nat): (w: nat)
    ensures w % 2 == 0 && w >= 4 && BitLen(primary) <= w && BitLen(secondary) <= w
    ensures w == Selector(w) * 2 + 4
    ensures w <= ProfessionWidthAsWritten(primary, secondary) + 1
  {
    var raw := ProfessionWidthAsWritten(primary, secondary);
    if raw % 2 == 0 then raw else raw + 1
  }

  /** `encodeSkillbar` as written, over natural numbers: an odd profession width is stored rounded up but written unrounded. */
  function EncodeSkillbarAsWritten(skillbar: Skillbar): (r: string)
    ensures |r| == (|EncodeFields(skillbar, ProfessionWidthAsWritten(skillbar.primary, skillbar.secondary))| + 5) / 6
    ensures Base64ToBinary(r) == Some(PadToSextets(EncodeFields(skillbar, ProfessionWidthAsWritten(skillbar.primary, skillbar.secondary))))
  {
    var bits := EncodeFields(skillbar, ProfessionWidthAsWritten(skillbar.primary, skillbar.secondary));
    BinaryToBase64RoundTrip(bits);
    BinaryToBase64(bits)
  }

  /** `encodeSkillbar` with the professions written in the width that the stored selector announces. */
  function EncodeSkillbar(skillbar: Skillbar): (r: string)
    ensures |r| == (|EncodeFields(skillbar, ProfessionWidth(skillbar.primary, skillbar.secondary))| + 5) / 6
    ensures Base64ToBinary(r) == Some(PadToSextets(EncodeFields(skillbar, ProfessionWidth(skillbar.primary, skillbar.secondary))))
  {
    var bits := EncodeFields(skillbar, ProfessionWidth(skillbar.primary, skillbar.secondary));
    BinaryToBase64RoundTrip(bits);
    BinaryToBase64(bits)
  }
}
