/** The stream-out rule of the record code generator: for every generated
    record class, `operator<<(dbOStream&, const T&)` walks the class's field
    descriptors in declaration order and, per field, writes a packed bit-field
    group as one integer word, skips a `no-serial` field, and writes any other
    field (through a dereference for a table field), guarded by the database's
    schema check when the field carries a schema gate. */
module SerializerOut {
  import opened Wrappers
  import opened OStreams

  /** The flag that keeps a field in memory but off the stream. */
  const NoSerial: seq<char> := "no-serial"

  datatype FieldKind =
    | BitFields(numBits: nat)   // a packed bit-field struct whose widths sum to numBits
    | Plain(isTable: bool)      // any other member; isTable: a pointer to an owned table

  /** One field of a record class, as the generator reads it from the schema. */
  datatype FieldDesc = FieldDesc(
    name: seq<char>,
    kind: FieldKind,
    flags: set<seq<char>>,
    schema: Option<nat>)

  /** Width of the integer a bit-field group is copied into: 32 bits when the
      group declares exactly 32 bits, 64 bits otherwise. */
  function WordWidth(numBits: nat): (w: nat)
    ensures w == 32 || w == 64
  {
    if numBits == 32 then 32 else 64
  }

  function Pow2(n: nat): (r: nat)
    ensures r >= 1
  {
    if n == 0 then 1 else 2 * Pow2(n - 1)
  }

  lemma {:induction false} Pow2Add(m: nat, n: nat)
    ensures Pow2(m + n) == Pow2(m) * Pow2(n)
  {
    if n > 0 {
      Pow2Add(m, n - 1);
      assert Pow2(m + n) == 2 * Pow2(m + n - 1);
    }
  }

  /** One more than the largest value of the word a bit-field group is
      copied into: the bound of `uint32_t` or of `uint64_t`, which is two to
      the power of the chosen width. */
  function WordLimit(numBits: nat): (r: nat)
    ensures r == Pow2(WordWidth(numBits))
  {
    assert Pow2(8) == 256 by { Pow2Add(4, 4); }
    assert Pow2(16) == 0x1_0000 by { Pow2Add(8, 8); }
    assert Pow2(32) == 0x1_0000_0000 by { Pow2Add(16, 16); }
    assert Pow2(64) == 0x1_0000_0000_0000_0000 by { Pow2Add(32, 32); }
    if numBits == 32 then 0x1_0000_0000 else 0x1_0000_0000_0000_0000
  }

  /** What a value must look like for the generated code to compile: a
      bit-field struct has exactly the size of the word it is copied into (the
      `static_assert`), and a table field holds a pointer to its table object.
      `Pointer` stands only for such a table pointer (a `char*` is a
      `CString`), so no other field holds one. */
  predicate Matches(f: FieldDesc, v: Value)
  {
    match f.kind
    case BitFields(n) => v.Bits? && v.size == WordWidth(n) && v.raw < WordLimit(n)
    case Plain(isTable) => isTable <==> v.Pointer?
  }

  /** A record object `obj` laid out according to the descriptor list `fs`. */
  predicate Conforms(fs: seq<FieldDesc>, obj: seq<Value>)
  {
    |fs| == |obj| && forall i :: 0 <= i < |fs| ==> Matches(fs[i], obj[i])
  }

  /** Whether the rule puts field `f` on the stream: a bit-field group always;
      any other field unless it is `no-serial` or its schema gate is closed. */
  predicate Emitted(f: FieldDesc, isSchema: nat -> bool)
    ensures !Emitted(f, isSchema) ==> f.kind.Plain? && (NoSerial in f.flags || f.schema.Some?)
  {
    f.kind.BitFields? || (NoSerial !in f.flags && (f.schema.None? || isSchema(f.schema.value)))
  }

  /** The one token field `f` contributes when it is emitted: the raw bits of
      a bit-field group as a 32- or 64-bit word, the pointed-to value of a
      table field, the value itself otherwise. */
  function TokenFor(f: FieldDesc, v: Value): (t: Token)
    requires Matches(f, v)
    ensures t.Item? <==> f.kind.Plain?
  {
    match f.kind
    case BitFields(n) => if n == 32 then Word32(v.raw) else Word64(v.raw)
    case Plain(isTable) => Item(if isTable then v.pointee else v)
  }

  /** What field `f` holding `v` contributes: its token when it is emitted,
      nothing otherwise. */
  function FieldEmission(f: FieldDesc, v: Value, isSchema: nat -> bool): (r: seq<Token>)
    requires Matches(f, v)
    ensures |r| <= 1
  {
    if Emitted(f, isSchema) then [TokenFor(f, v)] else []
  }

  /** Everything one call of the rule appends to the stream: the fields'
      contributions concatenated in declaration order. */
  function Emission(fs: seq<FieldDesc>, obj: seq<Value>, isSchema: nat -> bool): (r: seq<Token>)
    requires Conforms(fs, obj)
    ensures |r| <= |fs|
    decreases |fs|
  {
    if |fs| == 0 then []
    else
      var n := |fs| - 1;
      Emission(fs[..n], obj[..n], isSchema) + FieldEmission(fs[n], obj[n], isSchema)
  }

  /** The positions of the emitted fields, in increasing order. */
  function EmittedIndices(fs: seq<FieldDesc>, isSchema: nat -> bool): (r: seq<nat>)
    ensures forall k :: 0 <= k < |r| ==> r[k] < |fs| && Emitted(fs[r[k]], isSchema)
    ensures forall k, l :: 0 <= k < l < |r| ==> r[k] < r[l]
    ensures forall i :: 0 <= i < |fs| && Emitted(fs[i], isSchema) ==> i in r
    decreases |fs|
  {
    if |fs| == 0 then []
    else
      var n := |fs| - 1;
      EmittedIndices(fs[..n], isSchema) + (if Emitted(fs[n], isSchema) then [n] else [])
  }

  /** The generated `operator<<`: writes `obj` to `stream` field by field and
      returns the same stream. */
  method WriteRecord(stream: OStream, fs: seq<FieldDesc>, obj: seq<Value>, isSchema: nat -> bool)
    returns (r: OStream)
    requires Conforms(fs, obj)
    modifies stream
    ensures r == stream
    ensures stream.out == old(stream.out) + Emission(fs, obj, isSchema)
  {
    var i := 0;
    while i < |fs|
      invariant i <= |fs|
      invariant stream.out == old(stream.out) + Emission(fs[..i], obj[..i], isSchema)
    {
      var field, value := fs[i], obj[i];
      assert Matches(field, value);
      match field.kind {
        case BitFields(numBits) =>
          if numBits == 32 {
            var bitField: Uint32 := value.raw;
            stream.WriteWord32(bitField);
          } else {
            var bitField: Uint64 := value.raw;
            stream.WriteWord64(bitField);
          }
        case Plain(isTable) =>
          if NoSerial !in field.flags {
            var gateOpen := field.schema.None? || isSchema(field.schema.value);
            if gateOpen {
              if isTable {
                stream.WriteValue(value.pointee);
              } else {
                stream.WriteValue(value);
              }
            }
          }
      }
      assert fs[..i + 1][..i] == fs[..i];
      assert obj[..i + 1][..i] == obj[..i];
      i := i + 1;
    }
    assert fs[..|fs|] == fs;
    assert obj[..|obj|] == obj;
    r := stream;
  }

  /** Two conforming descriptor lists, concatenated, describe the
      concatenated objects. */
  lemma {:induction false} ConformsAppend(fs1: seq<FieldDesc>, obj1: seq<Value>, fs2: seq<FieldDesc>, obj2: seq<Value>)
    requires Conforms(fs1, obj1) && Conforms(fs2, obj2)
    ensures Conforms(fs1 + fs2, obj1 + obj2)
  {
    var fs, obj := fs1 + fs2, obj1 + obj2;
    forall i | 0 <= i < |fs| ensures Matches(fs[i], obj[i]) {
      if i < |fs1| {
        assert fs[i] == fs1[i] && obj[i] == obj1[i];
      } else {
        assert fs[i] == fs2[i - |fs1|] && obj[i] == obj2[i - |fs1|];
      }
    }
  }

  /** A conforming object restricted to a slice of its descriptors. */
  lemma {:induction false} ConformsSlice(fs: seq<FieldDesc>, obj: seq<Value>, lo: nat, hi: nat)
    requires Conforms(fs, obj) && lo <= hi <= |fs|
    ensures Conforms(fs[lo..hi], obj[lo..hi])
  {
    forall j | 0 <= j < hi - lo ensures Matches(fs[lo..hi][j], obj[lo..hi][j]) {
      assert fs[lo..hi][j] == fs[lo + j] && obj[lo..hi][j] == obj[lo + j];
    }
  }

  /** Writing two descriptor lists one after the other writes the
      concatenation of what each writes. */
  lemma {:induction false} EmissionAppend(fs1: seq<FieldDesc>, obj1: seq<Value>,
                                          fs2: seq<FieldDesc>, obj2: seq<Value>,
                                          isSchema: nat -> bool)
    requires Conforms(fs1, obj1) && Conforms(fs2, obj2)
    ensures Conforms(fs1 + fs2, obj1 + obj2)
    ensures Emission(fs1 + fs2, obj1 + obj2, isSchema)
         == Emission(fs1, obj1, isSchema) + Emission(fs2, obj2, isSchema)
    decreases |fs2|
  {
    ConformsAppend(fs1, obj1, fs2, obj2);
    var fs, obj := fs1 + fs2, obj1 + obj2;
    if |fs2| == 0 {
      assert fs == fs1 && obj == obj1;
    } else {
      var n := |fs2| - 1;
      var m := |fs| - 1;
      ConformsSlice(fs2, obj2, 0, n);
      assert fs[..m] == fs1 + fs2[..n];
      assert obj[..m] == obj1 + obj2[..n];
      assert fs[m] == fs2[n] && obj[m] == obj2[n];
      EmissionAppend(fs1, obj1, fs2[..n], obj2[..n], isSchema);
      calc {
        Emission(fs, obj, isSchema);
        Emission(fs[..m], obj[..m], isSchema) + FieldEmission(fs[m], obj[m], isSchema);
        Emission(fs1, obj1, isSchema) + Emission(fs2[..n], obj2[..n], isSchema) + FieldEmission(fs2[n], obj2[n], isSchema);
        Emission(fs1, obj1, isSchema) + Emission(fs2, obj2, isSchema);
      }
    }
  }

  /** The stream of the first k fields extends that of the first k - 1 by
      what field k - 1 writes. */
  lemma {:induction false} EmissionPrefixStep(fs: seq<FieldDesc>, obj: seq<Value>, isSchema: nat -> bool, k: nat)
    requires Conforms(fs, obj) && 0 < k <= |fs|
    ensures Conforms(fs[..k], obj[..k]) && Conforms(fs[..k - 1], obj[..k - 1])
    ensures Emission(fs[..k], obj[..k], isSchema)
         == Emission(fs[..k - 1], obj[..k - 1], isSchema) + FieldEmission(fs[k - 1], obj[k - 1], isSchema)
  {
    ConformsSlice(fs, obj, 0, k);
    ConformsSlice(fs, obj, 0, k - 1);
    assert fs[0..k] == fs[..k] && obj[0..k] == obj[..k];
    assert fs[0..k - 1] == fs[..k - 1] && obj[0..k - 1] == obj[..k - 1];
    assert fs[..k][..k - 1] == fs[..k - 1] && obj[..k][..k - 1] == obj[..k - 1];
  }

  /** The stream of a record is what the fields before `i` write, then what
      field `i` writes, then what the fields after it write. */
  lemma {:induction false} EmissionSplit(fs: seq<FieldDesc>, obj: seq<Value>, isSchema: nat -> bool, i: nat)
    requires Conforms(fs, obj) && i < |fs|
    ensures Conforms(fs[..i], obj[..i]) && Conforms(fs[i + 1..], obj[i + 1..])
    ensures Emission(fs, obj, isSchema)
         == Emission(fs[..i], obj[..i], isSchema)
          + FieldEmission(fs[i], obj[i], isSchema)
          + Emission(fs[i + 1..], obj[i + 1..], isSchema)
  {
    var head, headObj := fs[..i] + [fs[i]], obj[..i] + [obj[i]];
    assert fs == head + fs[i + 1..];
    assert obj == headObj + obj[i + 1..];
    ConformsSlice(fs, obj, 0, i);
    ConformsSlice(fs, obj, i + 1, |fs|);
    assert fs[i + 1..|fs|] == fs[i + 1..] && obj[i + 1..|obj|] == obj[i + 1..];
    assert fs[0..i] == fs[..i] && obj[0..i] == obj[..i];
    assert head[..i] == fs[..i] && headObj[..i] == obj[..i];
    EmissionAppend(head, headObj, fs[i + 1..], obj[i + 1..], isSchema);
  }

  /** Order: the stream holds exactly one token per emitted field, and the
      k-th token belongs to the k-th emitted field in declaration order. */
  lemma {:induction false} EmissionFollowsDeclarationOrder(fs: seq<FieldDesc>, obj: seq<Value>,
                                                           isSchema: nat -> bool)
    requires Conforms(fs, obj)
    ensures var idx := EmittedIndices(fs, isSchema);
            && |Emission(fs, obj, isSchema)| == |idx|
            && forall k :: 0 <= k < |idx| ==>
                 Emission(fs, obj, isSchema)[k] == TokenFor(fs[idx[k]], obj[idx[k]])
    decreases |fs|
  {
    if |fs| > 0 {
      var n := |fs| - 1;
      EmissionFollowsDeclarationOrder(fs[..n], obj[..n], isSchema);
      var pre := EmittedIndices(fs[..n], isSchema);
      forall k | 0 <= k < |pre| ensures fs[..n][pre[k]] == fs[pre[k]] && obj[..n][pre[k]] == obj[pre[k]] {
      }
    }
  }

  /** Bit-field branch: a packed group contributes exactly one word holding
      its raw bits, 32 bits wide when the group declares 32 bits and 64 bits
      otherwise, whatever its flags, its schema gate or the database's schema. */
  lemma {:induction false} BitFieldGroupWritesOneWord(fs: seq<FieldDesc>, obj: seq<Value>, isSchema: nat -> bool, i: nat)
    requires Conforms(fs, obj) && i < |fs| && fs[i].kind.BitFields?
    ensures Conforms(fs[..i], obj[..i]) && Conforms(fs[i + 1..], obj[i + 1..])
    ensures obj[i].raw < WordLimit(fs[i].kind.numBits)
    ensures Emission(fs, obj, isSchema)
         == Emission(fs[..i], obj[..i], isSchema)
          + [if fs[i].kind.numBits == 32 then Word32(obj[i].raw) else Word64(obj[i].raw)]
          + Emission(fs[i + 1..], obj[i + 1..], isSchema)
  {
    assert Matches(fs[i], obj[i]);
    EmissionSplit(fs, obj, isSchema, i);
  }

  /** `no-serial` branch: such a field contributes nothing; the stream is the
      one of the record without that field. */
  lemma {:induction false} NoSerialFieldWritesNothing(fs: seq<FieldDesc>, obj: seq<Value>, isSchema: nat -> bool, i: nat)
    requires Conforms(fs, obj) && i < |fs|
    requires fs[i].kind.Plain? && NoSerial in fs[i].flags
    ensures Conforms(fs[..i] + fs[i + 1..], obj[..i] + obj[i + 1..])
    ensures Emission(fs, obj, isSchema) == Emission(fs[..i] + fs[i + 1..], obj[..i] + obj[i + 1..], isSchema)
  {
    assert !Emitted(fs[i], isSchema);
    assert FieldEmission(fs[i], obj[i], isSchema) == [];
    EmissionSplit(fs, obj, isSchema, i);
    EmissionAppend(fs[..i], obj[..i], fs[i + 1..], obj[i + 1..], isSchema);
  }

  /** Any other field: it contributes one token exactly when it is ungated or
      the database passes its schema check, and that token is the pointed-to
      value for a table field and the field's own value otherwise. */
  lemma {:induction false} SerialFieldWrittenIffGateOpen(fs: seq<FieldDesc>, obj: seq<Value>, isSchema: nat -> bool, i: nat)
    requires Conforms(fs, obj) && i < |fs|
    requires fs[i].kind.Plain? && NoSerial !in fs[i].flags
    ensures Conforms(fs[..i], obj[..i]) && Conforms(fs[i + 1..], obj[i + 1..])
    ensures fs[i].kind.isTable ==> obj[i].Pointer?
    ensures Emission(fs, obj, isSchema)
         == Emission(fs[..i], obj[..i], isSchema)
          + (if fs[i].schema.None? || isSchema(fs[i].schema.value)
             then [Item(if fs[i].kind.isTable then obj[i].pointee else obj[i])]
             else [])
          + Emission(fs[i + 1..], obj[i + 1..], isSchema)
  {
    assert Matches(fs[i], obj[i]);
    EmissionSplit(fs, obj, isSchema, i);
  }

  /** No pointer reaches the stream: table fields are written through the
      dereference, and the other fields hold no pointers. */
  lemma {:induction false} NoPointerWritten(fs: seq<FieldDesc>, obj: seq<Value>, isSchema: nat -> bool)
    requires Conforms(fs, obj)
    requires forall i :: 0 <= i < |fs| && obj[i].Pointer? ==> !obj[i].pointee.Pointer?
    ensures forall t :: t in Emission(fs, obj, isSchema) ==> !(t.Item? && t.v.Pointer?)
    decreases |fs|
  {
    if |fs| > 0 {
      var n := |fs| - 1;
      NoPointerWritten(fs[..n], obj[..n], isSchema);
      assert Matches(fs[n], obj[n]);
    }
  }
}
