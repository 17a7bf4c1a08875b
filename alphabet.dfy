/**
  The alphabet transcoder of the skill-template codec.

  A bit stream is cut into 6-bit groups, each read least-significant bit
  first, and each group becomes one symbol of the 64-symbol alphabet of
  Table 1 in section 4 of RFC 4648 (only the bit order inside a group
  differs from RFC 4648).
 */
module Alphabet {
  import opened Results
  import opened BitValue

  /** Table 1 of RFC 4648 read from symbol to value: the value a symbol stands for, if any. */
  function SymbolValue(c: char): (r: Option<nat>)
    ensures r.Some? ==> r.value < 64
  {
    if 'A' <= c <= 'Z' then Some(c as int - 'A' as int)
    else if 'a' <= c <= 'z' then Some(c as int - 'a' as int + 26)
    else if '0' <= c <= '9' then Some(c as int - '0' as int + 52)
    else if c == '+' then Some(62)
    else if c == '/' then Some(63)
    else None
  }

  /** Table 1 of RFC 4648 read from value to symbol. */
  function SymbolChar(v: nat): char
    requires v < 64
  {
    if v < 26 then ('A' as int + v) as char
    else if v < 52 then ('a' as int + (v - 26)) as char
    else if v < 62 then ('0' as int + (v - 52)) as char
    else if v == 62 then '+'
    else '/'
  }

  /** `_base64`: symbol i stands for the 6-bit value i. */
  const Symbols: string := "ABCDEFGHIJKLMNOPQRSTUVWXYZ" + "abcdefghijklmnopqrstuvwxyz" + "0123456789" + "+/"

  lemma UpperRange()
    ensures forall i :: 0 <= i < 26 ==> "ABCDEFGHIJKLMNOPQRSTUVWXYZ"[i] as int == 'A' as int + i
  {
  }

  lemma LowerRange()
    ensures forall i :: 0 <= i < 26 ==> "abcdefghijklmnopqrstuvwxyz"[i] as int == 'a' as int + i
  {
  }

  lemma DigitRange()
    ensures forall i :: 0 <= i < 10 ==> "0123456789"[i] as int == '0' as int + i
  {
  }

  /** Symbol i of the alphabet is the symbol the table gives for the value i. */
  lemma SymbolsAt(i: nat)
    requires i < 64
    ensures |Symbols| == 64 && Symbols[i] == SymbolChar(i)
  {
    var upper, lower, digits := "ABCDEFGHIJKLMNOPQRSTUVWXYZ", "abcdefghijklmnopqrstuvwxyz", "0123456789";
    if i < 26 {
      UpperRange();
      assert Symbols[i] == upper[i];
    } else if i < 52 {
      LowerRange();
      assert Symbols[i] == lower[i - 26];
    } else if i < 62 {
      DigitRange();
      assert Symbols[i] == digits[i - 52];
    }
  }

  /** The two readings of the table agree: `v` is written as `c` exactly when `c` stands for `v`. */
  lemma SymbolCharIs(v: nat, c: char)
    requires v < 64
    ensures SymbolChar(v) == c <==> SymbolValue(c) == Some(v)
  {
  }

  /** Symbol i of the alphabet stands for the value i in the table. */
  lemma SymbolsFollowTable(i: nat)
    requires i < 64
    ensures |Symbols| == 64 && SymbolValue(Symbols[i]) == Some(i)
  {
    SymbolsAt(i);
  }

  /** A symbol of the table sits in the alphabet at the position of its value. */
  lemma SymbolAtItsValue(c: char)
    ensures SymbolValue(c).Some? ==> |Symbols| == 64 && Symbols[SymbolValue(c).value] == c
  {
    if SymbolValue(c).Some? {
      SymbolsAt(SymbolValue(c).value);
    }
  }

  /** The alphabet string agrees with the table, in both directions. */
  lemma SymbolsMatchTable()
    ensures |Symbols| == 64
    ensures forall i :: 0 <= i < 64 ==> SymbolValue(Symbols[i]) == Some(i)
    ensures forall c :: SymbolValue(c).Some? ==> Symbols[SymbolValue(c).value] == c
  {
    forall i | 0 <= i < 64
      ensures SymbolValue(Symbols[i]) == Some(i)
    {
      SymbolsFollowTable(i);
    }
    forall c | SymbolValue(c).Some?
      ensures Symbols[SymbolValue(c).value] == c
    {
      SymbolAtItsValue(c);
    }
  }

  /** Distinct symbols stand for distinct values. */
  lemma SymbolValueInjective(c: char, d: char)
    requires SymbolValue(c).Some? && SymbolValue(c) == SymbolValue(d)
    ensures c == d
  {
  }

  /** `getCharIndex`: a linear search of the alphabet; `None` stands for the thrown error. */
  method GetCharIndex(c: char) returns (r: Option<nat>)
    ensures r == SymbolValue(c)
  {
    var i := 0;
    while i < |Symbols|
      invariant 0 <= i <= |Symbols|
      invariant SymbolValue(c).Some? ==> i <= SymbolValue(c).value
    {
      SymbolsAt(i);
      SymbolCharIs(i, c);
      if Symbols[i] == c {
        return Some(i);
      }
      i := i + 1;
    }
    return None;
  }

  /** `base64ToBinary`: each symbol becomes its value in exactly 6 bits; an unknown symbol fails. */
  function Base64ToBinary(text: string): (r: Option<Bits>)
    ensures r.Some? ==> |r.value| == 6 * |text|
  {
    if text == [] then Some([])
    else
      match SymbolValue(text[0])
      case None => None
      case Some(index) =>
        match Base64ToBinary(text[1..])
        case None => None
        case Some(rest) =>
          BitLenBound(index, 6);
          Some(ValueToBinary(index, 6) + rest)
  }

  /** Transcoding fails exactly when some symbol is outside the alphabet. */
  lemma {:induction false} Base64ToBinaryAccepts(text: string)
    ensures Base64ToBinary(text).Some? <==> forall k :: 0 <= k < |text| ==> SymbolValue(text[k]).Some?
  {
    if text != [] {
      Base64ToBinaryAccepts(text[1..]);
      assert forall k :: 1 <= k < |text| ==> text[k] == text[1..][k - 1];
    }
  }

  /** The bit stream padded with '0' bits to the next multiple of 6. */
  function PadToSextets(bits: Bits): (r: Bits)
    ensures |r| % 6 == 0 && |bits| <= |r| < |bits| + 6
    ensures r == bits + Zeros(|r| - |bits|)
  {
    if |bits| % 6 != 0 then PadRight(bits, |bits| + 6 - |bits| % 6) else bits
  }

  /** The symbol of one 6-bit group: `_base64[binaryToValue(group)]`. */
  function GroupSymbol(group: Bits): (c: char)
    requires |group| == 6
    ensures SymbolValue(c) == Some(BinaryToValue(group))
  {
    var value := BinaryToValue(group);
    assert Pow2(6) == 64;
    SymbolsFollowTable(value);
    Symbols[value]
  }

  /** One symbol per 6-bit group, in stream order. */
  function Sextets(bits: Bits): (r: string)
    requires |bits| % 6 == 0
    ensures 6 * |r| == |bits|
  {
    if bits == [] then [] else [GroupSymbol(bits[..6])] + Sextets(bits[6..])
  }

  /** `binaryToBase64`. */
  function BinaryToBase64(bits: Bits): (r: string)
    ensures |r| == (|bits| + 5) / 6
  {
    Sextets(PadToSextets(bits))
  }

  /** The first symbol gives the first 6 bits, the rest of the text the rest. */
  lemma Base64Cons(text: string)
    requires text != []
    ensures Base64ToBinary(text).Some? <==> SymbolValue(text[0]).Some? && Base64ToBinary(text[1..]).Some?
    ensures Base64ToBinary(text).Some? ==>
      && Base64ToBinary(text).value
         == ValueToBinary(SymbolValue(text[0]).value, 6) + Base64ToBinary(text[1..]).value
      && |ValueToBinary(SymbolValue(text[0]).value, 6)| == 6
  {
    if SymbolValue(text[0]).Some? {
      BitLenBound(SymbolValue(text[0]).value, 6);
    }
  }

  /** Each symbol of an accepted text gives, at its own place in the stream, the 6-bit field of its index. */
  lemma {:induction false} Base64ToBinaryAt(text: string, k: nat)
    requires Base64ToBinary(text).Some? && k < |text|
    ensures SymbolValue(text[k]).Some?
    ensures Base64ToBinary(text).value[6 * k .. 6 * k + 6] == ValueToBinary(SymbolValue(text[k]).value, 6)
    decreases k
  {
    Base64Cons(text);
    var head := ValueToBinary(SymbolValue(text[0]).value, 6);
    var rest := Base64ToBinary(text[1..]).value;
    if k == 0 {
      assert (head + rest)[0 .. 6] == head;
    } else {
      Base64ToBinaryAt(text[1..], k - 1);
      assert text[1..][k - 1] == text[k];
      assert (head + rest)[6 * k .. 6 * k + 6] == rest[6 * (k - 1) .. 6 * (k - 1) + 6];
    }
  }

  /** Each symbol of the rendered text is the one whose index is the value of its own 6-bit group. */
  lemma {:induction false} SextetsAt(bits: Bits, k: nat)
    requires |bits| % 6 == 0 && 6 * k + 6 <= |bits|
    ensures k < |Sextets(bits)|
    ensures SymbolValue(Sextets(bits)[k]) == Some(BinaryToValue(bits[6 * k .. 6 * k + 6]))
    decreases k
  {
    var tail := bits[6..];
    SixLess(|bits|);
    assert Sextets(bits) == [GroupSymbol(bits[..6])] + Sextets(tail);
    if k > 0 {
      var from := 6 * (k - 1);
      assert 6 * k == from + 6;
      SextetsAt(tail, k - 1);
      assert tail[from .. from + 6] == bits[from + 6 .. from + 12];
    }
  }

  /** Text back to bits and out again: every stream whose length is a multiple of 6 survives. */
  lemma {:induction false} SextetsRoundTrip(bits: Bits)
    requires |bits| % 6 == 0
    ensures Base64ToBinary(Sextets(bits)) == Some(bits)
  {
    if bits != [] {
      var head, tail := bits[..6], bits[6..];
      assert bits == head + tail;
      SixLess(|bits|);
      var c := GroupSymbol(head);
      FixedWidthRoundTrip(head);
      SextetsRoundTrip(tail);
      var text := Sextets(bits);
      assert text == [c] + Sextets(tail);
      assert text[0] == c && text[1..] == Sextets(tail);
      Base64Cons(text);
    }
  }

  /** Alphabet closure: decoding the text gives back the stream, padded to a multiple of 6. */
  lemma BinaryToBase64RoundTrip(bits: Bits)
    ensures Base64ToBinary(BinaryToBase64(bits)) == Some(PadToSextets(bits))
    ensures |bits| % 6 == 0 ==> Base64ToBinary(BinaryToBase64(bits)) == Some(bits)
  {
    SextetsRoundTrip(PadToSextets(bits));
  }

  /** The other direction: a text over the alphabet is reproduced from its bits. */
  lemma Base64ToBinaryRoundTrip(text: string)
    requires Base64ToBinary(text).Some?
    ensures BinaryToBase64(Base64ToBinary(text).value) == text
  {
    SextetsOfBinary(text);
    var bits := Base64ToBinary(text).value;
    assert PadToSextets(bits) == bits;
  }

  lemma {:induction false} SextetsOfBinary(text: string)
    requires Base64ToBinary(text).Some?
    ensures |Base64ToBinary(text).value| % 6 == 0
    ensures Sextets(Base64ToBinary(text).value) == text
  {
    SixTimes(|text|);
    if text != [] {
      Base64Cons(text);
      var bits := Base64ToBinary(text).value;
      var head := ValueToBinary(SymbolValue(text[0]).value, 6);
      assert bits[..6] == head && bits[6..] == Base64ToBinary(text[1..]).value;
      GroupSymbolOfValue(text[0]);
      SextetsOfBinary(text[1..]);
      assert text == [text[0]] + text[1..];
    }
  }

  lemma SixLess(n: nat)
    requires n % 6 == 0 && n >= 6
    ensures (n - 6) % 6 == 0
  {
  }

  lemma SixTimes(n: nat)
    ensures (6 * n) % 6 == 0
  {
  }

  /** A symbol's value, written in 6 bits, is turned back into that symbol. */
  lemma GroupSymbolOfValue(c: char)
    requires SymbolValue(c).Some?
    ensures |ValueToBinary(SymbolValue(c).value, 6)| == 6
    ensures GroupSymbol(ValueToBinary(SymbolValue(c).value, 6)) == c
  {
    BitLenBound(SymbolValue(c).value, 6);
    ValueRoundTrip(SymbolValue(c).value, 6);
    SymbolValueInjective(c, GroupSymbol(ValueToBinary(SymbolValue(c).value, 6)));
  }
}
