# LIEF Mach-O `LC_FUNCTION_STARTS` in Dafny

LIEF represents the Mach-O `LC_FUNCTION_STARTS` load command by the class
`FunctionStarts` (`include/LIEF/MachO/FunctionStarts.hpp`). The command records
where its payload lies in the `__LINKEDIT` segment (an offset and a size, both
32-bit), the payload bytes read from the file, and the list of function entry
points (64-bit, relative to `__TEXT`). The payload is documented as an array of
ULEB128-encoded values.

The project has four modules:

- `Wrappers` (`wrappers.dfy`): the `Option` type used by the decoders.
- `IntTypes` (`int_types.dfy`): `uint8`, `uint32` and `uint64` as subset types of
  `int`. Their ranges are the ranges of the C++ fields.
- `MachO` (`function_starts.dfy`): the class `FunctionStarts`. It has the four
  fields of the C++ class and the default constructor, getters and setters,
  whole-list replace, append, and writes through the mutable views. Every method
  states the new value of the field it changes and that the other fields keep
  their values.
- `Leb128` (`leb128.dfy`): unsigned LEB128 as defined in section 7.6 of the DWARF
  Debugging Information Format, Version 4. A value is split into groups of seven
  bits, least-significant group first. Bit 7 is set on every byte except the
  last. The module has:
  - a minimal encoder, a decoder that reads one value from a cursor, and a
    decoder for a whole payload;
  - proofs of the round trip for single values and for whole payloads;
  - proofs of the two failure cases (a truncated value and a value over 64
    bits), and that a payload fails as a whole when any value in it fails;
  - a proof that the encoder's output is the only unpadded encoding.

The decoder rejects a value whose mathematical value is 2^64 or more. It
accepts padded encodings (for example `80 00` for 0), since DWARF allows them.
Re-encoding such a value gives the minimal form, so `DecodeValuesCanonical`
applies only to unpadded payloads.

## Model

| member | source | states |
|---|---|---|
| `MachO.FunctionStarts.constructor` | include/LIEF/MachO/FunctionStarts.hpp:47 | A new command has offset 0, size 0, no payload bytes and no functions (the defaults of the fields at lines 98-101). |
| `MachO.FunctionStarts.DataOffset` | include/LIEF/MachO/FunctionStarts.hpp:56 | Returns the stored `__LINKEDIT` offset, a 32-bit value, and changes nothing. |
| `MachO.FunctionStarts.DataSize` | include/LIEF/MachO/FunctionStarts.hpp:59 | Returns the stored payload size, a 32-bit value, and changes nothing. |
| `MachO.FunctionStarts.Functions` | include/LIEF/MachO/FunctionStarts.hpp:66 | Returns the entry points in the order they are stored, each a 64-bit value, and changes nothing. |
| `MachO.FunctionStarts.SetFunctionAt` | include/LIEF/MachO/FunctionStarts.hpp:68 | A write through the mutable list replaces one entry and keeps the other entries, their order and the other fields. |
| `MachO.FunctionStarts.AddFunction` | include/LIEF/MachO/FunctionStarts.hpp:71 | The list grows by one with `address` last, earlier entries keep their values, and offset, size and payload bytes stay the same. There is no ordering or duplicate check. |
| `MachO.FunctionStarts.SetDataOffset` | include/LIEF/MachO/FunctionStarts.hpp:73 | The offset becomes `offset`. Size, payload bytes and functions stay the same. |
| `MachO.FunctionStarts.SetDataSize` | include/LIEF/MachO/FunctionStarts.hpp:74 | The size becomes `size`. Offset, payload bytes and functions stay the same. |
| `MachO.FunctionStarts.SetFunctions` | include/LIEF/MachO/FunctionStarts.hpp:75 | The list becomes exactly `funcs`, in order. Offset, size and payload bytes stay the same, so the stored bytes are not re-encoded from the new list. |
| `MachO.FunctionStarts.Content` | include/LIEF/MachO/FunctionStarts.hpp:77-79 | Returns the payload bytes as stored, whatever has been done to the list of functions, and changes nothing. |
| `MachO.FunctionStarts.SetContentAt` | include/LIEF/MachO/FunctionStarts.hpp:81-83 | A write through the mutable byte view overwrites one byte in place. The length of the bytes and every other field stay the same. |
| `Leb128.EncodeULEB128` | include/LIEF/MachO/FunctionStarts.hpp:41 | The encoding is one framed value (bit 7 set on every byte but the last) whose seven-bit groups carry `v`. It has k bytes exactly when 128^(k-1) <= v < 128^k, or k = 1 below 128, so it is minimal. |
| `Leb128.DecodeULEB128` | include/LIEF/MachO/FunctionStarts.hpp:41 | On success, the bytes from `pos` up to the returned position are one framed value, and the returned number is the value their groups carry. |
| `Leb128.EncodeValues` | include/LIEF/MachO/FunctionStarts.hpp:41 | A payload has at least one byte per value, is empty exactly when there are no values, and does not end on a byte with bit 7 set. |
| `Leb128.DecodeValuesFrom` | include/LIEF/MachO/FunctionStarts.hpp:41 | Decoding from a cursor yields at most one value per remaining byte, and yields no values at the end of the input. |
| `Leb128.DecodeValues` | include/LIEF/MachO/FunctionStarts.hpp:41 | A payload decodes to at most one value per byte, and the empty payload decodes to the empty list. |
| `Leb128.DecodeFramed` | include/LIEF/MachO/FunctionStarts.hpp:41 | When a framed value starts at `pos`, decoding reads exactly that value. It succeeds if and only if the value is below 2^64 and fails otherwise. |
| `Leb128.DecodeUnterminated` | include/LIEF/MachO/FunctionStarts.hpp:41 | When no byte from `pos` on has bit 7 clear, the value is truncated and decoding fails. |
| `Leb128.DecodeExtend` | include/LIEF/MachO/FunctionStarts.hpp:41 | Bytes after a value that decodes do not change what is decoded. |
| `Leb128.DecodeShift` | include/LIEF/MachO/FunctionStarts.hpp:41 | Bytes put in front of the input move the result's end position by their length, and leave the value and any failure unchanged. |
| `Leb128.RoundTrip` | include/LIEF/MachO/FunctionStarts.hpp:41 | For every 64-bit `v`, whatever follows it, decoding the encoding of `v` gives `v` and consumes exactly the encoded bytes. |
| `Leb128.EncodeFramed` | include/LIEF/MachO/FunctionStarts.hpp:41 | A framed value below 2^64 that does not end in a zero padding group is exactly the encoder's output for the number it carries. |
| `Leb128.DecodeCanonical` | include/LIEF/MachO/FunctionStarts.hpp:41 | A decoded value that does not end in a zero padding group was written exactly as the encoder writes it, so the encoding is unique. |
| `Leb128.EncodeLength` | include/LIEF/MachO/FunctionStarts.hpp:41 | Every 64-bit value is encoded in 1 to 10 bytes. |
| `Leb128.EncodeExamples` | include/LIEF/MachO/FunctionStarts.hpp:41 | 0, 127, 128 and 300 are encoded as `00`, `7F`, `80 01` and `AC 02`. |
| `Leb128.TruncatedExample` | include/LIEF/MachO/FunctionStarts.hpp:41 | The lone byte `80` is a truncated value, so decoding it as one value or as a payload fails. |
| `Leb128.DecodeValuesShift` | include/LIEF/MachO/FunctionStarts.hpp:41 | Bytes put in front of the input do not change the values decoded after them. |
| `Leb128.RoundTripValues` | include/LIEF/MachO/FunctionStarts.hpp:41 | Every list of 64-bit values, encoded one value after another, decodes back to the same list. |
| `Leb128.DecodeValuesTruncated` | include/LIEF/MachO/FunctionStarts.hpp:41 | A payload whose last byte has bit 7 set fails as a whole. |
| `Leb128.DecodeValuesAppend` | include/LIEF/MachO/FunctionStarts.hpp:41 | The values of two concatenated payloads that both decode are the values of the first followed by the values of the second. |
| `Leb128.DecodeValuesAppendMalformed` | include/LIEF/MachO/FunctionStarts.hpp:41 | When a malformed payload follows a well-formed one, the whole fails. No partial list is produced. |
| `Leb128.DecodeValuesCanonical` | include/LIEF/MachO/FunctionStarts.hpp:41 | An unpadded payload that decodes is exactly the encoding of its values. |
| `Leb128.PayloadExample` | include/LIEF/MachO/FunctionStarts.hpp:41 | The payload `03 05 00` holds the values 3, 5 and 0, and re-encodes to the same bytes. |

## Left out

- `accept`, `print` and `classof` (lines 90-94): visitor dispatch, stream output and a downcast in the `LoadCommand` hierarchy. None of that code is part of this model.
- The constructor from `details::linkedit_data_command` (line 48): the layout of the raw structure is not part of this model.
- The `BinaryParser` and `LinkEdit` friends (lines 31-32 and 43-44): they slice the payload out of the file, turn decoded values into `__TEXT`-relative addresses, and rebuild the file. Their code is not part of this model, so the model says nothing about how decoded values become addresses (for example, whether values are deltas summed into addresses) and does not link `content` to `functions`.
- `operator==` and `operator!=` (lines 87-88): their bodies are not part of this model, so which fields take part in a comparison is unknown.
- The copy constructor, `operator=` and `clone` (lines 50-53), and aliasing in general: `content_` is a non-owning span, so copies share the bytes it views. The model holds the bytes as a value, so a write through one copy is not seen by another.
- The destructor (line 85): there is nothing to model without memory management.
- `MachO.FunctionStarts.SetFunctionAt`: the mutable `functions()` overload (line 68) returns a reference to the whole vector. The model covers writing one element. Any other edit through that reference (insert, erase, clear) yields some new list, which `SetFunctions` covers.
- `Leb128.DecodeULEB128`: LIEF's own reader body is not part of this model. The decoder follows DWARF 4 section 7.6 and rejects values of 2^64 or more. It does not say what LIEF's reader does with them or with padded encodings.
- Signed LEB128 (SLEB128), also defined in section 7.6 of DWARF 4, is not used by this command and is not modelled.
