/** Node hashes. SHA-256 is a parameter: everything here holds for any hash function. */
module MerkleHash {
  import opened Bytes
  import opened Encoding
  import opened AvlTree

  const HASH_SIZE: nat := 32

  type Sha = Bytes -> Bytes

  /** The digest of `x` in exactly 32 bytes. A function with 32-byte results, such as SHA-256, is
      used unchanged. */
  function Digest(sha: Sha, x: Bytes): (d: Bytes)
    ensures |d| == HASH_SIZE
    ensures |sha(x)| == HASH_SIZE ==> d == sha(x)
  {
    (sha(x) + seq(HASH_SIZE, _ => 0))[..HASH_SIZE]
  }

  /** `EncodeBytes`: a byte string prefixed with its length. */
  function EncodeBytes(bs: Bytes): Bytes {
    Uvarint(|bs|) + bs
  }

  /** The digest of a leaf: the value enters through its own digest. */
  function LeafHash(sha: Sha, key: Bytes, value: Bytes, version: nat): (h: Bytes)
    ensures |h| == HASH_SIZE
  {
    Digest(sha, Varint(0) + Varint(1) + Varint(version) + EncodeBytes(key) + EncodeBytes(Digest(sha, value)))
  }

  /** The digest of a branch. The branch key is not part of it. */
  function BranchHash(sha: Sha, height: nat, size: nat, version: nat, left: Bytes, right: Bytes): (h: Bytes)
    ensures |h| == HASH_SIZE
  {
    Digest(sha, Varint(height) + Varint(size) + Varint(version) + EncodeBytes(left) + EncodeBytes(right))
  }

  function HashNode(sha: Sha, t: Tree): (h: Bytes)
    ensures |h| == HASH_SIZE
  {
    match t
    case Leaf(k, v, ver) => LeafHash(sha, k, v, ver)
    case Branch(_, ver, h, s, l, r) => BranchHash(sha, h, s, ver, HashNode(sha, l), HashNode(sha, r))
  }

  /** `RootHash`; the empty tree hashes to the digest of the empty string. */
  function RootHash(sha: Sha, r: Option<Tree>): (h: Bytes)
    ensures |h| == HASH_SIZE
  {
    if r.None? then Digest(sha, []) else HashNode(sha, r.value)
  }
}
