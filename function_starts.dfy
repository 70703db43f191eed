/**
 * The Mach-O LC_FUNCTION_STARTS load command: where its payload lies in the
 * __LINKEDIT segment, the payload bytes last read from the file, and the
 * function entry points (relative to the __TEXT segment) that the command
 * lists. The payload is a sequence of ULEB128 values (module Leb128).
 */
module MachO {
  import opened IntTypes

  class FunctionStarts {
    /** Offset of the payload in the __LINKEDIT segment. */
    var dataOffset: uint32
    /** Size in bytes of the payload in the file. */
    var dataSize: uint32
    /** The payload bytes as last read from the file; edits to `functions` do not rewrite them. */
    var content: seq<uint8>
    /** Entry point of every function, relative to the __TEXT segment, in order. */
    var functions: seq<uint64>

    /** An empty command: no payload, no functions. */
    constructor ()
      ensures dataOffset == 0 && dataSize == 0
      ensures content == [] && functions == []
    {
      dataOffset := 0;
      dataSize := 0;
      content := [];
      functions := [];
    }

    method DataOffset() returns (offset: uint32)
      ensures offset == dataOffset
    {
      offset := dataOffset;
    }

    method DataSize() returns (size: uint32)
      ensures size == dataSize
    {
      size := dataSize;
    }

    /** The function entry points, in the order they are listed. */
    method Functions() returns (funcs: seq<uint64>)
      ensures funcs == functions
    {
      funcs := functions;
    }

    /** The payload bytes last read from the file, whatever has been done to the functions since. */
    method Content() returns (bytes: seq<uint8>)
      ensures bytes == content
    {
      bytes := content;
    }

    /** Appends `address` after the entry points already listed, without any ordering check. */
    method AddFunction(address: uint64)
      modifies this
      ensures functions == old(functions) + [address]
      ensures dataOffset == old(dataOffset) && dataSize == old(dataSize)
      ensures content == old(content)
    {
      functions := functions + [address];
    }

    method SetDataOffset(offset: uint32)
      modifies this
      ensures dataOffset == offset
      ensures dataSize == old(dataSize) && content == old(content) && functions == old(functions)
    {
      dataOffset := offset;
    }

    method SetDataSize(size: uint32)
      modifies this
      ensures dataSize == size
      ensures dataOffset == old(dataOffset) && content == old(content) && functions == old(functions)
    {
      dataSize := size;
    }

    /**
     * A write through the mutable view of the entry points: the entry at
     * `index` becomes `address`, every other entry and the order stay.
     */
    method SetFunctionAt(index: nat, address: uint64)
      requires index < |functions|
      modifies this
      ensures functions == old(functions)[index := address]
      ensures dataOffset == old(dataOffset) && dataSize == old(dataSize) && content == old(content)
    {
      functions := functions[index := address];
    }

    /**
     * A write through the mutable view of the payload bytes: the view has a
     * fixed length, so a byte is overwritten in place and nothing moves.
     */
    method SetContentAt(index: nat, b: uint8)
      requires index < |content|
      modifies this
      ensures content == old(content)[index := b]
      ensures dataOffset == old(dataOffset) && dataSize == old(dataSize) && functions == old(functions)
    {
      content := content[index := b];
    }

    /** Replaces the whole list of entry points by `funcs`, keeping their order. */
    method SetFunctions(funcs: seq<uint64>)
      modifies this
      ensures functions == funcs
      ensures dataOffset == old(dataOffset) && dataSize == old(dataSize) && content == old(content)
    {
      functions := funcs;
    }
  }

  /**
   * What a caller can rely on from the contracts alone: each setter changes
   * its own field, appends keep earlier entries, and the payload bytes stay
   * those last read, even after the list of entry points has changed.
   */
  method EditScenario(offset: uint32, size: uint32, a: uint64, b: uint64)
  {
    var cmd := new FunctionStarts();
    cmd.SetDataOffset(offset);
    cmd.SetDataSize(size);
    cmd.AddFunction(a);
    cmd.AddFunction(b);
    var funcs := cmd.Functions();
    assert funcs == [a, b];
    cmd.SetFunctions([b]);
    cmd.AddFunction(a);
    funcs := cmd.Functions();
    assert funcs == [b, a];
    var o := cmd.DataOffset();
    var s := cmd.DataSize();
    var bytes := cmd.Content();
    assert o == offset && s == size && bytes == [];
    cmd.SetFunctionAt(1, b);
    funcs := cmd.Functions();
    assert funcs == [b, b];
  }
}
