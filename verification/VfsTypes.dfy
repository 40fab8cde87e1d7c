// The limits and values shared by every part of the filesystem model
// (kernel/include/vfs.h).
module VfsTypes {
  import opened Common

  const MAX_NODES: nat := 96
  const NAME_MAX: nat := 24
  const BLOCK: nat := 512
  const MAX_BLOCKS: nat := 1024
  const DIRECT_BLOCKS: nat := 64
  const FILE_MAX: nat := 32768
  const NONE: int := -1

  /** A character of a C string: anything but the terminator. */
  type Char = b: int | 1 <= b < 256 witness 1
  type Text = seq<Char>

  const SLASH: Char := 47
  const DOT: Char := 46

  type Int16 = v: int | -0x8000 <= v < 0x8000
  type Uint32 = v: int | 0 <= v < 0x1_0000_0000

  datatype Kind = DirKind | FileKind

  datatype VfsResult =
    | Ok
    | NotFound
    | Exists
    | NotADirectory
    | IsADirectory
    | NotEmpty
    | NoSpace
    | TooBig
    | BadName

  /** What one slot of the node table means, with the links and the blocks
      forgotten: a directory is the list of its children in order, a file is
      its bytes. */
  datatype Entry =
    | Free
    | Dir(name: Text, parent: int, kids: seq<int>)
    | File(name: Text, parent: int, data: seq<Byte>)

  type Tree = seq<Entry>

  function BlocksFor(length: nat): nat { (length + BLOCK - 1) / BLOCK }
}
