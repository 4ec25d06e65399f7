/** Info hashes: 32 bytes of storage, and a type that says how many of them count. */
module InfoHashes {
  import opened Bytes
  import opened Sequences

  const V1_SIZE: nat := 20
  const V2_SIZE: nat := 32

  datatype HashType = NoType | Sha1 | Sha256

  type HashStorage = s: seq<byte> | |s| == V2_SIZE witness Zeroes(V2_SIZE)

  datatype InfoHash = InfoHash(storage: HashStorage, kind: HashType) {
    /** The significant bytes: none at all when the type was never set. */
    function Significant(): seq<byte> {
      storage[..HashSize(kind)]
    }

    /** The key of a torrent in the database: at most 20 of those bytes. */
    function TorrentKey(): seq<byte> {
      Take(Significant(), V1_SIZE)
    }
  }

  function HashSize(kind: HashType): nat {
    match kind
    case NoType => 0
    case Sha1 => V1_SIZE
    case Sha256 => V2_SIZE
  }

  /** The constructor from a type and as many bytes as that type needs. */
  function MakeInfoHash(kind: HashType, bytes: seq<byte>): InfoHash
    requires |bytes| == HashSize(kind)
  {
    InfoHash(bytes + Zeroes(V2_SIZE - |bytes|), kind)
  }

  /** A version 2 torrent is keyed like the version 1 hash made of its first 20 bytes. */
  lemma KeyTruncates(bytes: seq<byte>)
    requires |bytes| == V2_SIZE
    ensures MakeInfoHash(Sha256, bytes).TorrentKey() == MakeInfoHash(Sha1, bytes[..V1_SIZE]).TorrentKey()
    ensures MakeInfoHash(Sha256, bytes).TorrentKey() == bytes[..V1_SIZE]
  {
    assert MakeInfoHash(Sha1, bytes[..V1_SIZE]).Significant() == bytes[..V1_SIZE];
    assert MakeInfoHash(Sha256, bytes).Significant() == bytes;
  }

  /** Typed hashes have 20-byte keys; a hash without a type has the empty key. */
  lemma KeySize(h: InfoHash)
    ensures |h.TorrentKey()| == if h.kind.NoType? then 0 else V1_SIZE
  {
  }
}
