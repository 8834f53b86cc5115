# ODB record stream-out, modelled in Dafny

This project models how the OpenROAD database (ODB) writes a generated record
to its output stream `dbOStream`, and proves what that writing promises.

It models two things:

- The generator's stream-out rule (`serializer_out.cpp`). For every generated
  record class this expands into an `operator<<`. That operator walks the
  class's field descriptors in declaration order. A packed bit-field group is
  copied into one 32-bit or 64-bit word and written with no flag or schema
  check. A `no-serial` field is skipped. Any other field is written, through a
  dereference when it is a table field, and guarded by the database's
  `isSchema` check when it carries a schema gate.
- One instance of that rule: the isolation record `_dbIsolation` and its flags
  struct `dbIsolationFlags` (`dbIsolation.h`). The flags are two 4-bit
  enumerations and 24 spare bits, packed into one 32-bit word.

Files:

- `wrappers.dfy`: `Option`.
- `ostream.dfy` (module `OStreams`): the stream. It holds field values
  (`Value`) and tokens (`Token`: a 32-bit word, a 64-bit word, or the
  stream's encoding of a value). `OStream` is a class whose `out` sequence only
  ever grows.
- `serializer_out.dfy` (module `SerializerOut`): field descriptors, the
  per-field emission, the specification function `Emission`, the method
  `WriteRecord` (the generated loop), and the lemmas about ordering, gating,
  skipping and word packing.
- `db_isolation.dfy` (module `DbIsolation`): the flags datatype with
  `Pack`/`Unpack`, the bit layout, the isolation record, its descriptor list,
  `WriteIsolation`, and `operator!=`.

The packing order chosen for `dbIsolationFlags`: C++ leaves bit-field layout
to the implementation. The model puts the clamp value in bits 0-3, the
isolation sense in bits 4-7 and the spare bits in bits 8-31. So the word is
`clamp + 16 * sense + 256 * spare`.

Inputs that the model takes as parameters:

- The database's schema check `isSchema` is a parameter `nat -> bool`.
- The `no-serial` flags and schema gates of the isolation record's fields
  come from a schema file that is not part of this model. They are a parameter
  too: eight `FieldAttrs`, one per field.

A bit-field group is written unconditionally: the template applies neither
the schema gate nor `no-serial` to it (serializer_out.cpp:4-12).

The record's cross-references are plain ids. The `Isolation` datatype holds
`_next_entry`, `_isolation_signal` and `_power_domain` as `nat` table indices
and `_isolation_cells` as a `seq<nat>`, as the `dbId<...>` and
`dbVector<dbId<...>>` declarations at dbIsolation.h:71-76 do. On the stream
they are tagged with the class of their table (`Ref("_dbNet", id)`).

## Model

| member | source | states |
|---|---|---|
| `SerializerOut.WordLimit` | src/odb/src/codeGenerator/templates/serializer_out.cpp:5-10 | the bound a bit-field group's raw bits must respect is the range of the chosen `uint32_t` or `uint64_t`: two to the power of the chosen width |
| `SerializerOut.Emitted` | src/odb/src/codeGenerator/templates/serializer_out.cpp:4-23 | which fields the rule writes: every bit-field group, and any other field unless it is `no-serial` or its gate is closed. Only a plain field, `no-serial` or gated, is skipped |
| `SerializerOut.TokenFor` | src/odb/src/codeGenerator/templates/serializer_out.cpp:4-18 | definition of the token a written field contributes: the raw bits as a `Word32` for a 32-bit group and as a `Word64` for any other group; the value of a plain field, or the pointed-to value for a table field. Its contract says that exactly the plain fields give an encoded value |
| `SerializerOut.FieldEmission` | src/odb/src/codeGenerator/templates/serializer_out.cpp:4-23 | definition of one field's contribution: `[TokenFor]` when the field is written, nothing otherwise; its contract bounds it to at most one token |
| `SerializerOut.Emission` | src/odb/src/codeGenerator/templates/serializer_out.cpp:3-24 | the operator's whole output: the fields' contributions concatenated in declaration order, at most one token per field |
| `SerializerOut.EmittedIndices` | src/odb/src/codeGenerator/templates/serializer_out.cpp:3-24 | the emitted fields' positions are strictly increasing, each is a field the rule emits, and every field the rule emits is among them |
| `SerializerOut.WriteRecord` | src/odb/src/codeGenerator/templates/serializer_out.cpp:1-28 | the generated operator returns the same stream, keeps what the stream already held, and appends exactly the record's emission |
| `SerializerOut.EmissionAppend` | src/odb/src/codeGenerator/templates/serializer_out.cpp:3-24 | the emission of two field lists placed one after the other is the concatenation of their emissions: fields are never reordered |
| `SerializerOut.EmissionSplit` | src/odb/src/codeGenerator/templates/serializer_out.cpp:3-24 | the stream is what the fields before i write, then what field i writes, then what the fields after i write |
| `SerializerOut.EmissionFollowsDeclarationOrder` | src/odb/src/codeGenerator/templates/serializer_out.cpp:3-24 | the stream has one token per emitted field, and its k-th token is the token of the k-th emitted field in declaration order |
| `SerializerOut.BitFieldGroupWritesOneWord` | src/odb/src/codeGenerator/templates/serializer_out.cpp:4-12 | a bit-field group contributes exactly one word. That word holds the group's raw bits, is 32 bits wide when the group declares 32 bits and 64 bits otherwise, and does not depend on the group's flags, its gate or the schema |
| `SerializerOut.NoSerialFieldWritesNothing` | src/odb/src/codeGenerator/templates/serializer_out.cpp:14 | a `no-serial` field that is not a bit-field group contributes no token: the stream equals that of the record with the field removed |
| `SerializerOut.SerialFieldWrittenIffGateOpen` | src/odb/src/codeGenerator/templates/serializer_out.cpp:15-21 | any other field contributes exactly one token if and only if it is ungated or `isSchema` holds of its gate, and nothing otherwise. The token is the pointed-to value for a table field and the field's value otherwise |
| `SerializerOut.NoPointerWritten` | src/odb/src/codeGenerator/templates/serializer_out.cpp:18 | table fields are written through the dereference, so no token on the stream is a pointer |
| `DbIsolation.FlagsLayoutFillsOneWord` | src/odb/src/db/dbIsolation.h:54-59 | the widths 4 + 4 + 24 sum to 32, so the flags take the 32-bit branch. The three ranges follow each other from bit 0 and no two overlap |
| `DbIsolation.Pack` | src/odb/src/db/dbIsolation.h:54-59 | the chosen layout of `dbIsolationFlags` in its 32-bit word: clamp value in bits 0-3, isolation sense in bits 4-7, spare bits in bits 8-31 |
| `DbIsolation.Unpack` | src/odb/src/db/dbIsolation.h:54-59 | the three members read back from a 32-bit word under that layout |
| `DbIsolation.PackPlacesEachMember` | src/odb/src/db/dbIsolation.h:56-58 | in the packed word, bits 0-3 hold the clamp value, bits 4-7 the isolation sense and bits 8-31 the spare bits |
| `DbIsolation.UnpackPack` | src/odb/src/db/dbIsolation.h:54-59 | unpacking the packed word gives back the flags struct |
| `DbIsolation.PackUnpack` | src/odb/src/db/dbIsolation.h:54-59 | every 32-bit word is the packing of the struct it holds |
| `DbIsolation.WithClampValue` | src/odb/src/db/dbIsolation.h:56 | storing a 4-bit clamp value sets that member and leaves the isolation sense and the spare bits unchanged |
| `DbIsolation.WithIsolationSense` | src/odb/src/db/dbIsolation.h:57 | storing a 4-bit isolation sense sets that member and leaves the clamp value and the spare bits unchanged |
| `DbIsolation.IsolationFields` | src/odb/src/db/dbIsolation.h:69-76 | the record's descriptor list: `flags_` as a 32-bit bit-field group, then `_name` through `_power_domain` as plain, non-table fields, in declaration order, each with the attributes its schema gives it |
| `DbIsolation.IsolationObject` | src/odb/src/db/dbIsolation.h:69-76 | the record's members as field values: the packed flags word, the name, and the ids tagged with the class of the table they index |
| `DbIsolation.IsolationConforms` | src/odb/src/db/dbIsolation.h:54-76 | the record matches its descriptor list for any attributes: the flags struct has the size of the 32-bit word it is copied into |
| `DbIsolation.IsolationWritesNoPointer` | src/odb/src/db/dbIsolation.h:71-76 | the record has no table field, and no token of its stream is a pointer: the cross-references go out as ids |
| `DbIsolation.IsolationStreamOut` | src/odb/src/db/dbIsolation.h:69-76 | the record's stream is the flags word first and unconditionally, then `_name` through `_power_domain` in declaration order, each present exactly when it is serial and its gate is open |
| `DbIsolation.FlagsWordRoundTrip` | src/odb/src/codeGenerator/templates/serializer_out.cpp:10-12 | the first token of the isolation record's stream is a 32-bit word that unpacks to the record's flags |
| `DbIsolation.IsolationAllSerial` | src/odb/src/db/dbIsolation.h:69-76 | when no field is `no-serial` or gated, the stream is exactly the eight members in declaration order |
| `DbIsolation.WriteIsolation` | src/odb/src/db/dbIsolation.h:94 | the isolation record's `operator<<` returns the same stream and appends exactly `IsolationStream`: the flags word, then each member its attributes let through |
| `DbIsolation.NotEqualIrreflexiveSymmetric` | src/odb/src/db/dbIsolation.h:83-84 | exactly one of `a == b` and `a != b` holds; for a reflexive, symmetric equality, `!=` is irreflexive and symmetric |

## Left out

- The byte encoding of the `dbOStream` primitives (strings, `char*`, `dbId`, `dbVector`, integers) is abstracted: each primitive write is one token, and `dbOStream` is modelled only as "append one token per write". Writes never fail: an I/O failure of `dbOStream`, which would leave the stream partly written, is not modelled.
- The read side `operator>>` and the definitions of `operator==`, `operator<`, `differences` and `out` are not modelled. The model makes no round-trip or ordering claim beyond the flags' `Pack`/`Unpack`. `NotEqual` takes the equality as a parameter.
- `isSchema` (a comparison against the database's schema revision) is a parameter.
- Which `_dbIsolation` fields are `no-serial` or schema-gated is set by the class's schema file. Those attributes are parameters.
- Jinja text substitution is left out. The rule is modelled as one loop over a descriptor list. The `memcpy` is modelled as copying the raw bits verbatim. Byte order is left out.
- The `static_assert` is a compile-time check. It appears as the precondition `Conforms`: a bit-field value has the size of its word, and a table field holds a `Pointer`. `Pointer` stands for a pointer to a table object only. A `char*` such as `_name` (dbIsolation.h:70) is modelled as `CString`, so "no other field holds a `Pointer`" is a modelling convention, not a fact of the C++ types.
- The `dbSigType` enumeration's members are constrained only to fit in 4 bits.
- Ids are unbounded naturals. The fixed width of `dbId` and its null sentinel are not modelled.
- The template's empty user-code section, between the field loop and `return stream`, contributes nothing.
- Stream-in, comparison, diff and arena management are not modelled.
