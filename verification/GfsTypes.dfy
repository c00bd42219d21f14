// Vocabulary shared by every graphfs module: constants of the on-disk format, error
// codes, names and paths.
module GfsTypes {

  const BLOCK: nat := 4096           // bytes per block
  const NODES_PER_BLOCK: nat := 16   // node records per table block
  const MAP_SLOTS: nat := 256        // table-block pointers in the node map
  const MAX_NODES: nat := 4096       // MAP_SLOTS * NODES_PER_BLOCK
  const INLINE_EXTENTS: nat := 8
  const EDGES_PER_BLOCK: nat := 14
  const MAX_FILE_BLOCKS: nat := 512
  const MAX_FILE_SIZE: nat := 2097152 // MAX_FILE_BLOCKS * BLOCK
  const BM_BITS: nat := 32768        // allocation bits per bitmap block
  const NAME_MAX: nat := 255
  const ROOT: nat := 1
  const BM_START: nat := 2

  type byte = x: int | 0 <= x < 256
  type Name = string

  datatype Err =
    | OK | EIO | EBADFS | ECORRUPT | EBADCRC | ENOENT | EEXIST | ENOTDIR | EISDIR | ENOSPC
    | EINVAL | ENAMETOOLONG | ENOTEMPTY | EMANYPARENTS | EFBIG | EROFS | EFRAG | ENOMEM

  datatype Res<+T> = Ok(v: T) | Fail(e: Err)

  // name_len_ok: the order of the three tests is the source's.
  function NameCheck(name: Name): (e: Err)
    ensures e == OK <==> 0 < |name| <= NAME_MAX && '/' !in name
    ensures e == ENAMETOOLONG <==> |name| > NAME_MAX
    ensures e in {OK, EINVAL, ENAMETOOLONG}
  {
    if |name| == 0 then EINVAL
    else if |name| > NAME_MAX then ENAMETOOLONG
    else if '/' in name then EINVAL
    else OK
  }

  function Zeros(n: nat): (z: seq<byte>)
    ensures |z| == n && forall i :: 0 <= i < n ==> z[i] == 0
  {
    seq(n, i => 0)
  }
}
