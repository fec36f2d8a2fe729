/** The data model shared by the index, the wire and the file store
    (internal/model/model.go), and the vocabulary for the content hash. */
module Model {

  /** Byte strings; one char stands for one byte. */
  type Bytes = string

  /** A hash in its printed form. */
  type Digest = string

  /** SHA-256 is not computed here: everything is proved for an arbitrary hash function. */
  type Hasher = Bytes -> Digest

  const BLOCK_SIZE: int := 262144
  const MAX_FILE_SIZE: int := 8589934592
  const MAX_ENTRIES: int := 100000
  const MAX_MANIFEST_BYTES: int := 67108864

  datatype Option<+T> = None | Some(value: T)

  datatype Result<+T, +E> = Ok(value: T) | Err(error: E)

  datatype Block = Block(offset: int, size: int, hash: Digest)

  datatype Entry = Entry(path: string, kind: string, size: int, mode: nat, hash: Digest, blocks: seq<Block>)

  datatype Stats = Stats(files: int, received: int, reused: int)

  /** Why an operation of the store refused or failed. */
  datatype Error =
    | Invalid        // metadata rejected by ValidateEntry
    | Budget         // the folder index would exceed its limits
    | Marker         // the folder marker is missing or names another folder
    | Unsupported    // an unsupported or misplaced object on disk
    | LocalChange    // a local change would be overwritten
    | Mismatch       // blocks or content do not match the announced checksum
    | FetchFailed    // the peer did not deliver a block
    | Corrupt        // the peer delivered other bytes than announced
    | Stale          // a block request does not match the index or the file

  function Min(a: int, b: int): int {
    if a < b then a else b
  }

  /** Two different byte strings with one hash. */
  predicate Collision(h: Hasher, a: Bytes, b: Bytes) {
    a != b && h(a) == h(b)
  }

  /** No collision among the byte strings of u. */
  ghost predicate InjectiveOn(h: Hasher, u: set<Bytes>) {
    forall a, b :: a in u && b in u && h(a) == h(b) ==> a == b
  }

  /** validHash: 64 lower-case hexadecimal digits. */
  predicate ValidHash(d: Digest) {
    |d| == 64 && forall i :: 0 <= i < |d| ==> '0' <= d[i] <= '9' || 'a' <= d[i] <= 'f'
  }

  /** These are exactly the strings of 64 characters that lower-case hexadecimal uses. */
  lemma ValidHashIsHex(d: Digest)
    ensures ValidHash(d) <==> |d| == 64 && forall i :: 0 <= i < |d| ==> d[i] in "0123456789abcdef"
  {
    var hex := "0123456789abcdef";
    forall i | 0 <= i < |d| ensures d[i] in hex <==> '0' <= d[i] <= '9' || 'a' <= d[i] <= 'f' {
      if '0' <= d[i] <= '9' {
        assert hex[d[i] as int - '0' as int] == d[i];
      } else if 'a' <= d[i] <= 'f' {
        assert hex[10 + d[i] as int - 'a' as int] == d[i];
      }
    }
  }

  /** What is known of the printed form of every hash. */
  ghost predicate HexHasher(h: Hasher) {
    forall b :: ValidHash(h(b))
  }
}
