/** The generated isolation record `_dbIsolation` and its packed flags struct
    `dbIsolationFlags`, one instance of the record stream-out rule. */
module DbIsolation {
  import opened Wrappers
  import opened OStreams
  import opened SerializerOut

  type Nibble = x: nat | x < 16
  type Spare = x: nat | x < 0x100_0000

  /** `dbIsolationFlags`: two 4-bit `dbSigType` enumerations and 24 spare
      bits. */
  datatype IsolationFlags = IsolationFlags(clampValue: Nibble, isolationSense: Nibble, spareBits: Spare)

  /** A range of bits in a word, counted from the least significant bit. */
  datatype BitRange = BitRange(offset: nat, width: nat)

  // The packing order of this model, least significant bits first:
  //   bits 0..3 clamp value, bits 4..7 isolation sense, bits 8..31 spare.
  const ClampValueBits := BitRange(0, 4)
  const IsolationSenseBits := BitRange(4, 4)
  const SpareBits := BitRange(8, 24)
  const FlagsLayout: seq<BitRange> := [ClampValueBits, IsolationSenseBits, SpareBits]

  function TotalWidth(layout: seq<BitRange>): nat
  {
    if layout == [] then 0 else layout[0].width + TotalWidth(layout[1..])
  }

  predicate Overlap(a: BitRange, b: BitRange)
  {
    a.offset < b.offset + b.width && b.offset < a.offset + a.width
  }

  /** The number of bits the generator records for the flags group. */
  const FlagsWidth: nat := TotalWidth(FlagsLayout)

  /** The declared widths add up to one 32-bit word, the ranges follow each
      other from bit 0 without gaps, and no two of them overlap: the spare bits
      share no bit with either enumeration. */
  lemma FlagsLayoutFillsOneWord()
    ensures FlagsWidth == 32 && WordWidth(FlagsWidth) == 32
    ensures FlagsLayout[0].offset == 0
    ensures forall k :: 0 < k < |FlagsLayout| ==>
              FlagsLayout[k].offset == FlagsLayout[k - 1].offset + FlagsLayout[k - 1].width
    ensures forall j, k :: 0 <= j < k < |FlagsLayout| ==> !Overlap(FlagsLayout[j], FlagsLayout[k])
  {
    assert FlagsLayout[1..][1..][1..] == [];
    assert TotalWidth(FlagsLayout[1..][1..]) == 24;
    assert TotalWidth(FlagsLayout[1..]) == 28;
  }

  /** The bits of `w` in range `r`, as a number. */
  function FieldOf(w: nat, r: BitRange): nat
  {
    (w / Pow2(r.offset)) % Pow2(r.width)
  }

  /** The flags struct as the one 32-bit word that holds its bits. */
  function Pack(f: IsolationFlags): Uint32
  {
    f.clampValue + 16 * f.isolationSense + 256 * f.spareBits
  }

  /** The flags struct a 32-bit word holds. */
  function Unpack(w: Uint32): IsolationFlags
  {
    IsolationFlags(w % 16, (w / 16) % 16, w / 256)
  }

  lemma Pow2Layout()
    ensures Pow2(0) == 1 && Pow2(4) == 16 && Pow2(8) == 256 && Pow2(24) == 0x100_0000
  {
    assert Pow2(4) == 16;
    assert Pow2(8) == 256 by { assert Pow2(8) == 16 * Pow2(4) by { Pow2Add(4, 4); } }
    assert Pow2(24) == 0x100_0000 by {
      Pow2Add(8, 8);
      Pow2Add(16, 8);
    }
  }

  /** Each member of the struct sits in its range of the packed word. */
  lemma PackPlacesEachMember(f: IsolationFlags)
    ensures FieldOf(Pack(f), ClampValueBits) == f.clampValue
    ensures FieldOf(Pack(f), IsolationSenseBits) == f.isolationSense
    ensures FieldOf(Pack(f), SpareBits) == f.spareBits
  {
    Pow2Layout();
  }

  /** The word holds the same bits as the struct: unpacking the packed word
      gives the struct back, and every word is the packing of its struct. */
  lemma UnpackPack(f: IsolationFlags)
    ensures Unpack(Pack(f)) == f
  {
    var w := Pack(f);
    DivMod(w, 16, f.isolationSense + 16 * f.spareBits, f.clampValue);
    DivMod(w / 16, 16, f.spareBits, f.isolationSense);
    DivMod(w, 256, f.spareBits, f.clampValue + 16 * f.isolationSense);
  }

  lemma PackUnpack(w: Uint32)
    ensures Pack(Unpack(w)) == w
  {
  }

  /** Division with remainder by a constant word-slice base. */
  lemma DivMod(a: nat, d: nat, q: nat, r: nat)
    requires d == 16 || d == 256
    requires r < d && a == d * q + r
    ensures a / d == q && a % d == r
  {
  }

  /** Assigning `_clamp_value` in the stored word: the clamp value becomes
      `v`, the isolation sense and the spare bits keep their values. */
  function WithClampValue(w: Uint32, v: Nibble): (r: Uint32)
    ensures Unpack(r) == Unpack(w).(clampValue := v)
  {
    var f := Unpack(w);
    PackUnpack(w);
    var r := v + 16 * f.isolationSense + 256 * f.spareBits;
    UnpackPack(f.(clampValue := v));
    r
  }

  /** Assigning `_isolation_sense` in the stored word: the isolation sense
      becomes `v`, the clamp value and the spare bits keep their values. */
  function WithIsolationSense(w: Uint32, v: Nibble): (r: Uint32)
    ensures Unpack(r) == Unpack(w).(isolationSense := v)
  {
    var f := Unpack(w);
    PackUnpack(w);
    var r := f.clampValue + 16 * v + 256 * f.spareBits;
    UnpackPack(f.(isolationSense := v));
    r
  }

  /** `_dbIsolation`: its members in declaration order. An id is the table
      index a `dbId<T>` holds; the record owns no other record. */
  datatype Isolation = Isolation(
    flags: IsolationFlags,
    name: Option<seq<char>>,       // char*, possibly null
    nextEntry: nat,                // dbId<_dbIsolation>
    appliesTo: seq<char>,
    isolationSignal: nat,          // dbId<_dbNet>
    location: seq<char>,
    isolationCells: seq<nat>,      // dbVector<dbId<_dbMaster>>
    powerDomain: nat)              // dbId<_dbPowerDomain>

  /** The serialisation flags and schema gate of one field, which the class's
      schema file sets. */
  datatype FieldAttrs = FieldAttrs(flags: set<seq<char>>, schema: Option<nat>)

  /** The descriptor list the generator reads for `_dbIsolation`, in
      declaration order, given the attributes of its eight fields. */
  function IsolationFields(a: seq<FieldAttrs>): (fs: seq<FieldDesc>)
    requires |a| == 8
  {
    [ FieldDesc("flags_", BitFields(FlagsWidth), a[0].flags, a[0].schema),
      FieldDesc("_name", Plain(false), a[1].flags, a[1].schema),
      FieldDesc("_next_entry", Plain(false), a[2].flags, a[2].schema),
      FieldDesc("_applies_to", Plain(false), a[3].flags, a[3].schema),
      FieldDesc("_isolation_signal", Plain(false), a[4].flags, a[4].schema),
      FieldDesc("_location", Plain(false), a[5].flags, a[5].schema),
      FieldDesc("_isolation_cells", Plain(false), a[6].flags, a[6].schema),
      FieldDesc("_power_domain", Plain(false), a[7].flags, a[7].schema) ]
  }

  /** The record's members as the stream-out rule sees them. */
  function IsolationObject(rec: Isolation): seq<Value>
  {
    [ Bits(FlagsWidth, Pack(rec.flags)),
      CString(rec.name),
      Ref("_dbIsolation", rec.nextEntry),
      Str(rec.appliesTo),
      Ref("_dbNet", rec.isolationSignal),
      Str(rec.location),
      RefVector("_dbMaster", rec.isolationCells),
      Ref("_dbPowerDomain", rec.powerDomain) ]
  }

  /** The record conforms to its descriptor list whatever the attributes: the
      flags group has the size of a 32-bit word. */
  lemma IsolationConforms(a: seq<FieldAttrs>, rec: Isolation)
    requires |a| == 8
    ensures Conforms(IsolationFields(a), IsolationObject(rec))
  {
    FlagsLayoutFillsOneWord();
  }

  /** What a field with attributes `attrs` holding `v` contributes when it is
      not a bit-field group. */
  function Gated(attrs: FieldAttrs, isSchema: nat -> bool, v: Value): seq<Token>
  {
    if NoSerial !in attrs.flags && (attrs.schema.None? || isSchema(attrs.schema.value)) then [Item(v)] else []
  }

  /** The tokens the isolation record is expected to put on the stream: the
      flags word, then each other member that its attributes let through, in
      declaration order. */
  function IsolationStream(a: seq<FieldAttrs>, rec: Isolation, isSchema: nat -> bool): seq<Token>
    requires |a| == 8
  {
    [Word32(Pack(rec.flags))]
    + Gated(a[1], isSchema, CString(rec.name))
    + Gated(a[2], isSchema, Ref("_dbIsolation", rec.nextEntry))
    + Gated(a[3], isSchema, Str(rec.appliesTo))
    + Gated(a[4], isSchema, Ref("_dbNet", rec.isolationSignal))
    + Gated(a[5], isSchema, Str(rec.location))
    + Gated(a[6], isSchema, RefVector("_dbMaster", rec.isolationCells))
    + Gated(a[7], isSchema, Ref("_dbPowerDomain", rec.powerDomain))
  }

  /** The generated `operator<<` for `_dbIsolation` writes the flags word
      first and unconditionally, then each other member in declaration order,
      each one if and only if it is serial and its gate is open. */
  lemma IsolationStreamOut(a: seq<FieldAttrs>, rec: Isolation, isSchema: nat -> bool)
    requires |a| == 8
    ensures Conforms(IsolationFields(a), IsolationObject(rec))
    ensures Emission(IsolationFields(a), IsolationObject(rec), isSchema) == IsolationStream(a, rec, isSchema)
  {
    IsolationConforms(a, rec);
    var fs, obj := IsolationFields(a), IsolationObject(rec);
    assert fs[..8] == fs && obj[..8] == obj;
    assert fs[..0] == [] && obj[..0] == [];
    EmissionPrefixStep(fs, obj, isSchema, 1);
    FlagsFieldIsOneWord(a, rec, isSchema);
    var e1 := Emission(fs[..1], obj[..1], isSchema);
    assert e1 == [Word32(Pack(rec.flags))];
    EmissionStepIsGated(a, rec, isSchema, 2);
    EmissionStepIsGated(a, rec, isSchema, 3);
    EmissionStepIsGated(a, rec, isSchema, 4);
    EmissionStepIsGated(a, rec, isSchema, 5);
    EmissionStepIsGated(a, rec, isSchema, 6);
    EmissionStepIsGated(a, rec, isSchema, 7);
    EmissionStepIsGated(a, rec, isSchema, 8);
  }

  lemma FlagsFieldIsOneWord(a: seq<FieldAttrs>, rec: Isolation, isSchema: nat -> bool)
    requires |a| == 8
    ensures Conforms(IsolationFields(a), IsolationObject(rec))
    ensures FieldEmission(IsolationFields(a)[0], IsolationObject(rec)[0], isSchema) == [Word32(Pack(rec.flags))]
  {
    IsolationConforms(a, rec);
    FlagsLayoutFillsOneWord();
  }

  /** Each member after the flags contributes what its attributes allow. */
  lemma EmissionStepIsGated(a: seq<FieldAttrs>, rec: Isolation, isSchema: nat -> bool, k: nat)
    requires |a| == 8 && 2 <= k <= 8
    ensures Conforms(IsolationFields(a), IsolationObject(rec))
    ensures var fs, obj := IsolationFields(a), IsolationObject(rec);
            Conforms(fs[..k], obj[..k]) && Conforms(fs[..k - 1], obj[..k - 1]) &&
            Emission(fs[..k], obj[..k], isSchema)
            == Emission(fs[..k - 1], obj[..k - 1], isSchema) + Gated(a[k - 1], isSchema, obj[k - 1])
  {
    IsolationConforms(a, rec);
    var fs, obj := IsolationFields(a), IsolationObject(rec);
    EmissionPrefixStep(fs, obj, isSchema, k);
    assert fs[k - 1].kind == Plain(false) && fs[k - 1].flags == a[k - 1].flags && fs[k - 1].schema == a[k - 1].schema;
  }

  /** The record has no table field, so every member, the cross-references
      included, is written as its own value, and no pointer reaches the
      stream: the ids are written as ids. */
  lemma IsolationWritesNoPointer(a: seq<FieldAttrs>, rec: Isolation, isSchema: nat -> bool)
    requires |a| == 8
    ensures Conforms(IsolationFields(a), IsolationObject(rec))
    ensures forall i :: 0 <= i < 8 ==> IsolationFields(a)[i].kind != Plain(true)
    ensures forall t :: t in Emission(IsolationFields(a), IsolationObject(rec), isSchema) ==>
              !(t.Item? && t.v.Pointer?)
  {
    IsolationConforms(a, rec);
    NoPointerWritten(IsolationFields(a), IsolationObject(rec), isSchema);
  }

  /** The flags word on the stream holds exactly the record's flags. */
  lemma FlagsWordRoundTrip(a: seq<FieldAttrs>, rec: Isolation, isSchema: nat -> bool)
    requires |a| == 8
    ensures Conforms(IsolationFields(a), IsolationObject(rec))
    ensures var s := Emission(IsolationFields(a), IsolationObject(rec), isSchema);
            |s| >= 1 && s[0].Word32? && Unpack(s[0].w32) == rec.flags
  {
    IsolationStreamOut(a, rec, isSchema);
    UnpackPack(rec.flags);
  }

  /** When every field is serial and ungated, the stream is the eight members
      in declaration order. */
  lemma IsolationAllSerial(a: seq<FieldAttrs>, rec: Isolation, isSchema: nat -> bool)
    requires |a| == 8
    requires forall i :: 0 <= i < 8 ==> NoSerial !in a[i].flags && a[i].schema.None?
    ensures Conforms(IsolationFields(a), IsolationObject(rec))
    ensures Emission(IsolationFields(a), IsolationObject(rec), isSchema)
         == [ Word32(Pack(rec.flags)), Item(CString(rec.name)),
              Item(Ref("_dbIsolation", rec.nextEntry)), Item(Str(rec.appliesTo)),
              Item(Ref("_dbNet", rec.isolationSignal)), Item(Str(rec.location)),
              Item(RefVector("_dbMaster", rec.isolationCells)),
              Item(Ref("_dbPowerDomain", rec.powerDomain)) ]
  {
    IsolationStreamOut(a, rec, isSchema);
  }

  /** `operator<<(dbOStream&, const _dbIsolation&)`: the stream-out rule
      applied to the isolation record. */
  method WriteIsolation(stream: OStream, a: seq<FieldAttrs>, rec: Isolation, isSchema: nat -> bool)
    returns (r: OStream)
    requires |a| == 8
    modifies stream
    ensures r == stream
    ensures stream.out == old(stream.out) + IsolationStream(a, rec, isSchema)
  {
    IsolationStreamOut(a, rec, isSchema);
    r := WriteRecord(stream, IsolationFields(a), IsolationObject(rec), isSchema);
  }

  /** `operator!=` is the negation of `operator==`, whatever the latter
      compares. */
  function NotEqual(equal: (Isolation, Isolation) -> bool, a: Isolation, b: Isolation): bool
  {
    !equal(a, b)
  }

  /** Exactly one of `a == b` and `a != b` holds, and for an equality that is
      reflexive and symmetric, `!=` is irreflexive and symmetric. */
  lemma NotEqualIrreflexiveSymmetric(equal: (Isolation, Isolation) -> bool, a: Isolation, b: Isolation)
    requires equal(a, a) && equal(b, b)
    requires equal(a, b) <==> equal(b, a)
    ensures NotEqual(equal, a, b) != equal(a, b)
    ensures !NotEqual(equal, a, a)
    ensures NotEqual(equal, a, b) <==> NotEqual(equal, b, a)
  {
  }
}
