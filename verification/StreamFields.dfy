/** Sequences of typed fields: what the writer writes, the reader reads back. */
module StreamFields {
  import opened MachineWords
  import opened BitSequences
  import opened MemoryStreams
  import opened MemoryInput

  datatype Field =
    | Flag(bit: bool)
    | Short(value: Byte, bits: nat)
    | Big(number: Word, bytes: nat)
    | Little(number: Word, bytes: nat)
    | Lowest(number: Word, bits: nat)
    | Text(chars: seq<Byte>)

  datatype Shape = AFlag | AShort(bits: nat) | ABig(bytes: nat) | ALittle(bytes: nat) | ALowest(bits: nat) | AText

  function ShapeOf(f: Field): Shape {
    match f
    case Flag(_) => AFlag
    case Short(_, bits) => AShort(bits)
    case Big(_, bytes) => ABig(bytes)
    case Little(_, bytes) => ALittle(bytes)
    case Lowest(_, bits) => ALowest(bits)
    case Text(_) => AText
  }

  /** The fields there are functions for; fields of n bits as far as an int can be shifted. */
  predicate Exists(shape: Shape) {
    match shape
    case AShort(bits) => bits == 2 || bits == 4
    case ABig(bytes) => bytes in {1, 2, 3, 4, 8}
    case ALittle(bytes) => bytes in {2, 3, 4, 8}
    case ALowest(bits) => 1 <= bits <= 31
    case _ => true
  }

  predicate Proper(f: Field) {
    Exists(ShapeOf(f)) && (f.Text? ==> 0 !in f.chars)
  }

  /** Fields of bytes are written at offset 0 or 4 in a byte, texts at whole bytes. */
  predicate Placed(f: Field, offset: nat) {
    match f
    case Big(_, _) => offset % 8 == 0 || offset % 8 == 4
    case Little(_, _) => offset % 8 == 0 || offset % 8 == 4
    case Text(_) => offset % 8 == 0
    case _ => true
  }

  function Encoded(f: Field): seq<bool> {
    match f
    case Flag(bit) => [bit]
    case Short(value, bits) => BitsOf(value, bits)
    case Big(number, bytes) => BitsOf(number, 8 * bytes)
    case Little(number, bytes) => LittleBits(number, bytes)
    case Lowest(number, bits) => BitsOf(number, bits)
    case Text(chars) => TextBits(chars)
  }

  /** What of a field is written: as many of the lowest bits as it has. */
  ghost function Kept(f: Field): Field {
    match f
    case Flag(_) => f
    case Short(value, bits) => Short(Low(value, bits), bits)
    case Big(number, bytes) => Big(Low(number, 8 * bytes), bytes)
    case Little(number, bytes) => Little(Low(number, 8 * bytes), bytes)
    case Lowest(number, bits) => Lowest(Low(number, bits), bits)
    case Text(_) => f
  }

  ghost function Low(v: nat, n: nat): (r: nat)
    ensures r <= v
  {
    RemainderWithin(v, Pow2(n));
    v % Pow2(n)
  }

  lemma RemainderWithin(v: nat, p: nat)
    requires p > 0
    ensures v % p <= v
  {
    MulGrows(v / p, 0, p);
  }

  // ---------- what is read ----------

  lemma NumberRead(data: seq<Byte>, position: nat, r: nat, v: nat, n: nat)
    requires r < Pow2(n) && StandsAt(data, position, BitsOf(r, n)) && StandsAt(data, position, BitsOf(v, n))
    ensures r == Low(v, n)
  {
    SameStanding(data, position, BitsOf(r, n), BitsOf(v, n));
    BitsDetermine(r, v, n);
  }

  lemma LittleRead(data: seq<Byte>, position: nat, r: nat, v: nat, k: nat)
    requires r < Pow2(8 * k) && StandsAt(data, position, LittleBits(r, k)) && StandsAt(data, position, LittleBits(v, k))
    ensures r == Low(v, 8 * k)
  {
    SameStanding(data, position, LittleBits(r, k), LittleBits(v, k));
    LittleDetermine(r, v, k);
  }

  lemma FitsWord(k: nat)
    requires k <= 8
    ensures Pow2(8 * k) <= BASE
  {
    Pow2Of64();
    if k < 8 { Pow2Grows(8 * k, 64); }
  }

  /** Texts without zero bytes that stand at the same position are the same. */
  lemma TextRead(data: seq<Byte>, position: nat, s: seq<Byte>, t: seq<Byte>)
    requires StandsAt(data, position, TextBits(s)) && StandsAt(data, position, TextBits(t)) && 0 !in s && 0 !in t
    ensures s == t
  {
    StandsJoined(data, position, BytesBits(s), BitsOf(0, 8));
    StandsJoined(data, position, BytesBits(t), BitsOf(0, 8));
    TextNotShorter(data, position, s, t);
    TextNotShorter(data, position, t, s);
    forall k | 0 <= k < |s| ensures s[k] == t[k] {
      ByteOfText(data, position, s, k);
      ByteOfText(data, position, t, k);
      SameStanding(data, position + 8 * k, BitsOf(s[k], 8), BitsOf(t[k], 8));
      ByteDetermines(s[k], t[k]);
    }
  }

  /** A text read beyond the end would not have stood within it. */
  lemma StandsWithin(data: seq<Byte>, position: nat, s: seq<Byte>, t: seq<Byte>, length: nat)
    requires 0 !in t && StandsAt(data, position, TextBits(t)) && position + 8 * (|t| + 1) <= length
    ensures !NoText(data, position, length)
  {
  }

  // ---------- one field ----------

  method WriteField(output: MemoryOutputStream, f: Field)
    requires output.Valid() && Proper(f) && Placed(f, output.length)
    modifies output
    ensures output.Valid() && output.contents == old(output.contents) + Encoded(f)
  {
    match f {
      case Flag(bit) => output.WriteBit(bit);
      case Short(value, bits) => if bits == 2 { output.WriteUint2(value); } else { output.WriteUint4(value); }
      case Big(number, bytes) => output.WriteUintBe(number, bytes);
      case Little(number, bytes) => output.WriteUintLe(number, bytes);
      case Lowest(number, bits) => var ok := output.WriteNBitsOfUint64Be(number, bits);
      case Text(chars) => output.WriteString(chars);
    }
  }

  /** If a field stands at the position, it is read, whatever stands behind it. */
  method ReadField(input: MemoryInputStream, shape: Shape, ghost f: Field) returns (r: Field)
    requires input.Valid() && Exists(shape) && shape == ShapeOf(f) && Proper(f)
    modifies input
    ensures input.Valid()
    ensures
      StandsAt(input.data, old(input.position), Encoded(f)) && old(input.position) + |Encoded(f)| <= input.length ==>
        && r == Kept(f) && input.position == old(input.position) + |Encoded(f)|
        && input.isReadBeyondEnd == old(input.isReadBeyondEnd)
  {
    ghost var stands := StandsAt(input.data, input.position, Encoded(f)) &&
        input.position + |Encoded(f)| <= input.length;
    ghost var position := input.position;
    match shape {
      case AFlag =>
        var bit := input.ReadBit();
        r := Flag(bit);
        if stands { SameStanding(input.data, position, [bit], Encoded(f)); }
      case AShort(bits) =>
        var value;
        if bits == 2 { value := input.ReadUint2(); } else { value := input.ReadUint4(); }
        r := Short(value, bits);
        if stands { NumberRead(input.data, position, value, f.value, bits); }
      case ABig(bytes) =>
        var number := input.ReadUintBe(bytes);
        FitsWord(bytes);
        r := Big(number, bytes);
        if stands { NumberRead(input.data, position, number, f.number, 8 * bytes); }
      case ALittle(bytes) =>
        var number := input.ReadUintLe(bytes);
        FitsWord(bytes);
        r := Little(number, bytes);
        if stands { LittleRead(input.data, position, number, f.number, bytes); }
      case ALowest(bits) =>
        var ok, number := input.ReadNBitsToUint64Be(bits);
        r := Lowest(number, bits);
        if stands { NumberRead(input.data, position, number, f.number, bits); }
      case AText =>
        var chars := input.ReadString();
        r := Text(chars);
        if stands {
          StandsWithin(input.data, position, chars, f.chars, input.length);
          TextRead(input.data, position, chars, f.chars);
        }
    }
  }

  // ---------- many fields ----------

  /** The first n fields, one after another. */
  function EncodedFirst(fields: seq<Field>, n: nat): seq<bool>
    requires n <= |fields|
  {
    InOrder(Encodings(fields), n)
  }

  function Encodings(fields: seq<Field>): (r: seq<seq<bool>>)
    ensures |r| == |fields|
  {
    seq(|fields|, i requires 0 <= i < |fields| => Encoded(fields[i]))
  }

  ghost predicate PlacedAt(fields: seq<Field>, i: nat)
    requires i < |fields|
  {
    Proper(fields[i]) && Placed(fields[i], |EncodedFirst(fields, i)|)
  }

  ghost predicate WellPlaced(fields: seq<Field>) {
    forall i {:trigger PlacedAt(fields, i)} :: 0 <= i < |fields| ==> PlacedAt(fields, i)
  }

  lemma EncodedOneMore(fields: seq<Field>, i: nat)
    requires i < |fields|
    ensures EncodedFirst(fields, i + 1) == EncodedFirst(fields, i) + Encoded(fields[i])
  {
  }

  method WriteAll(fields: seq<Field>) returns (output: MemoryOutputStream)
    requires WellPlaced(fields)
    ensures fresh(output) && output.Valid() && output.contents == EncodedFirst(fields, |fields|)
  {
    output := new MemoryOutputStream();
    for i := 0 to |fields|
      invariant fresh(output) && output.Valid() && output.contents == EncodedFirst(fields, i)
    {
      assert PlacedAt(fields, i);
      EncodedOneMore(fields, i);
      WriteField(output, fields[i]);
    }
  }

  /** The i-th field stands behind those before it, within the length. */
  ghost predicate FieldAt(data: seq<Byte>, length: nat, fields: seq<Field>, i: nat)
    requires i < |fields|
  {
    && StandsAt(data, |EncodedFirst(fields, i)|, Encoded(fields[i]))
    && |EncodedFirst(fields, i)| + |Encoded(fields[i])| == |EncodedFirst(fields, i + 1)| <= length
  }

  ghost predicate AllStand(data: seq<Byte>, length: nat, fields: seq<Field>) {
    forall i :: 0 <= i < |fields| ==> FieldAt(data, length, fields, i)
  }

  lemma StreamStands(data: seq<Byte>, length: nat, fields: seq<Field>)
    requires StandsAt(data, 0, EncodedFirst(fields, |fields|)) && |EncodedFirst(fields, |fields|)| <= length
    ensures AllStand(data, length, fields)
  {
    forall i | 0 <= i < |fields| ensures FieldAt(data, length, fields, i) {
      PartStands(data, Encodings(fields), i);
    }
  }

  /** The i-th field, behind those before it. */
  method ReadNext(input: MemoryInputStream, shape: Shape, ghost fields: seq<Field>, ghost i: nat) returns (r: Field)
    requires input.Valid() && WellPlaced(fields) && AllStand(input.data, input.length, fields)
    requires i < |fields| && shape == ShapeOf(fields[i]) && input.position == |EncodedFirst(fields, i)|
    modifies input
    ensures input.Valid() && r == Kept(fields[i])
    ensures input.position == |EncodedFirst(fields, i + 1)| && input.isReadBeyondEnd == old(input.isReadBeyondEnd)
  {
    assert FieldAt(input.data, input.length, fields, i) && PlacedAt(fields, i);
    r := ReadField(input, shape, fields[i]);
  }

  method ReadAll(input: MemoryInputStream, shapes: seq<Shape>, ghost fields: seq<Field>) returns (read: seq<Field>)
    requires input.Valid() && input.position == 0 && |shapes| == |fields|
    requires WellPlaced(fields) && AllStand(input.data, input.length, fields)
    requires forall i :: 0 <= i < |fields| ==> shapes[i] == ShapeOf(fields[i])
    modifies input
    ensures |read| == |fields| && forall i :: 0 <= i < |fields| ==> read[i] == Kept(fields[i])
    ensures input.position == |EncodedFirst(fields, |fields|)| && input.isReadBeyondEnd == old(input.isReadBeyondEnd)
  {
    read := [];
    for i := 0 to |shapes|
      invariant input.Valid() && |read| == i && forall j :: 0 <= j < i ==> read[j] == Kept(fields[j])
      invariant input.position == |EncodedFirst(fields, i)| && input.isReadBeyondEnd == old(input.isReadBeyondEnd)
    {
      var field := ReadNext(input, shapes[i], fields, i);
      read := read + [field];
    }
  }

  /** What is written is read back in the same order, up to the end of the stream and not beyond it. */
  method RoundTrip(fields: seq<Field>, shapes: seq<Shape>) returns (read: seq<Field>, input: MemoryInputStream)
    requires WellPlaced(fields) && |shapes| == |fields|
    requires forall i :: 0 <= i < |fields| ==> shapes[i] == ShapeOf(fields[i])
    ensures |read| == |fields| && forall i :: 0 <= i < |fields| ==> read[i] == Kept(fields[i])
    ensures input.position == input.length == |EncodedFirst(fields, |fields|)| && !input.isReadBeyondEnd
  {
    var output := WriteAll(fields);
    ShownStands(output.data, output.contents);
    input := new MemoryInputStream(output.data, output.length, 0);
    StreamStands(input.data, input.length, fields);
    read := ReadAll(input, shapes, fields);
  }

  lemma ShownStands(data: seq<Byte>, bits: seq<bool>)
    requires Shows(data, bits)
    ensures StandsAt(data, 0, bits)
  {
    forall i | 0 <= i < |bits| ensures Part(data, 0, |bits|)[i] == bits[i] { assert BitAt(data, i) == bits[i]; }
  }

  /** Fields whose numbers fit are kept whole. */
  lemma FittingIsKept(f: Field)
    requires f.Short? ==> f.value < Pow2(f.bits)
    requires f.Big? || f.Little? ==> f.number < Pow2(8 * f.bytes)
    requires f.Lowest? ==> f.number < Pow2(f.bits)
    ensures Kept(f) == f
  {
    match f
    case Short(value, bits) => QuotientIs(value, Pow2(bits), 0, value);
    case Big(number, bytes) => QuotientIs(number, Pow2(8 * bytes), 0, number);
    case Little(number, bytes) => QuotientIs(number, Pow2(8 * bytes), 0, number);
    case Lowest(number, bits) => QuotientIs(number, Pow2(bits), 0, number);
    case _ =>
  }
}
