/** An abstraction of the database output stream `dbOStream`.
    The byte-level encoding of its primitives is not part of this model: every
    primitive write appends one token, and the stream is the sequence of tokens
    written so far. */
module OStreams {
  import opened Wrappers

  type Uint32 = x: nat | x < 0x1_0000_0000
  type Uint64 = x: nat | x < 0x1_0000_0000_0000_0000

  /** The in-memory value of one record field, as seen by the stream-out rule. */
  datatype Value =
    | Bits(size: nat, raw: nat)                 // a packed bit-field struct: its size in bits and its raw bits
    | Scalar(n: int)                            // an integer, enumeration or boolean member
    | CString(chars: Option<seq<char>>)         // a `char*`, possibly null
    | Str(s: seq<char>)                         // a `std::string`
    | Ref(table: seq<char>, id: nat)            // a `dbId<T>`: an index into the table of class `table`
    | RefVector(table: seq<char>, ids: seq<nat>)// a `dbVector<dbId<T>>`
    | Pointer(pointee: Value)                   // a pointer to an owned table object

  /** What one primitive write puts on the stream. */
  datatype Token =
    | Word32(w32: Uint32)  // `stream << uint32_t`
    | Word64(w64: Uint64)  // `stream << uint64_t`
    | Item(v: Value)      // the stream's encoding of a scalar, string, id or vector

  /** The output stream: an append-only sequence of tokens. */
  class OStream {
    var out: seq<Token>

    constructor ()
      ensures out == []
    {
      out := [];
    }

    method WriteWord32(w: Uint32)
      modifies this
      ensures out == old(out) + [Word32(w)]
    {
      out := out + [Word32(w)];
    }

    method WriteWord64(w: Uint64)
      modifies this
      ensures out == old(out) + [Word64(w)]
    {
      out := out + [Word64(w)];
    }

    method WriteValue(v: Value)
      modifies this
      ensures out == old(out) + [Item(v)]
    {
      out := out + [Item(v)];
    }
  }
}
