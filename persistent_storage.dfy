/** Storing one typed value in one byte slot: encode, optionally compress, write; and the
    reverse for reading. Every codec, compression or I/O failure becomes `nil` on the read
    path and `false` on the write path; nothing is thrown past this layer. */
module PersistentStorage {
  import opened Wrappers

  newtype byte = x: int | 0 <= x < 256
  type Bytes = seq<byte>

  /** A byte backend holding one blob (`PersistentDataStorage`). */
  datatype DataStorage =
    /** `NullPersistentDataStorage`: reads nothing, accepts every write. */
    | NullStorage
    /** A file or preferences backend: it holds the last blob written, or nothing after a
        delete; `writable` says whether its writes succeed (I/O failure otherwise). */
    | SlotStorage(slot: Option<Bytes>, writable: bool)

  function ReadData(s: DataStorage): (r: Option<Bytes>)
    ensures s.NullStorage? ==> r == None
    ensures s.SlotStorage? ==> r == s.slot
  {
    match s
    case NullStorage => None
    case SlotStorage(slot, _) => slot
  }

  /** Writing `None` deletes. Returns whether the backend accepted the write, and the
      backend afterwards. */
  function WriteData(s: DataStorage, data: Option<Bytes>): (r: (bool, DataStorage))
    ensures s.NullStorage? ==> r == (true, NullStorage)
    ensures s.SlotStorage? ==> r.0 == s.writable
    ensures s.SlotStorage? && r.0 ==> ReadData(r.1) == data
    ensures !r.0 ==> r.1 == s
  {
    match s
    case NullStorage => (true, NullStorage)
    case SlotStorage(_, writable) => if writable then (true, SlotStorage(data, writable)) else (false, s)
  }

  /** The structural coder (`StorageCoder`). A `None` result is a thrown coder error. */
  datatype StorageCoder<!T> =
    /** The base class: both directions throw. */
    | BaseCoder
    /** The coder of `nullStorage()`: encodes everything to no bytes, decoding is inherited
        from the base class and throws. */
    | NullCoder
    /** Any concrete coder such as the JSON one, given by its two partial directions. */
    | CustomCoder(encoder: T -> Option<Bytes>, decoder: Bytes -> Option<T>)

  function Encode<T>(c: StorageCoder<T>, x: T): (r: Option<Bytes>)
    ensures c.BaseCoder? ==> r == None
    ensures c.NullCoder? ==> r == Some([])
  {
    match c
    case BaseCoder => None
    case NullCoder => Some([])
    case CustomCoder(encoder, _) => encoder(x)
  }

  function Decode<T>(c: StorageCoder<T>, data: Bytes): (r: Option<T>)
    ensures !c.CustomCoder? ==> r == None
  {
    match c
    case BaseCoder => None
    case NullCoder => None
    case CustomCoder(_, decoder) => decoder(data)
  }

  /** A compression algorithm as a pair of partial byte transforms. */
  datatype Compressor = Compressor(compressor: Bytes -> Option<Bytes>, decompressor: Bytes -> Option<Bytes>)

  function Compress(a: Compressor, data: Bytes): Option<Bytes> {
    a.compressor(data)
  }

  /** Decompressing empty input always fails; other input is up to the algorithm. */
  function Decompress(a: Compressor, data: Bytes): (r: Option<Bytes>)
    ensures data == [] ==> r == None
  {
    if data == [] then None else a.decompressor(data)
  }

  /** `PersistentStorage<StoredElement>`: a backend, an optional compression and a coder. */
  datatype PersistentStorage<!T> = PersistentStorage(storage: DataStorage, compression: Option<Compressor>, coder: StorageCoder<T>)

  /** `read()`. */
  function Read<T>(ps: PersistentStorage<T>): (r: Option<T>)
    ensures ReadData(ps.storage) == None ==> r == None
    ensures (ps.compression.Some? && ReadData(ps.storage).Some?
             && Decompress(ps.compression.value, ReadData(ps.storage).value) == None) ==> r == None
    ensures ReadData(ps.storage).Some? && ps.compression.None? ==> r == Decode(ps.coder, ReadData(ps.storage).value)
    ensures (ps.compression.Some? && ReadData(ps.storage).Some?
             && Decompress(ps.compression.value, ReadData(ps.storage).value).Some?) ==>
              r == Decode(ps.coder, Decompress(ps.compression.value, ReadData(ps.storage).value).value)
    ensures r.Some? ==> ps.coder.CustomCoder?
  {
    match ReadData(ps.storage)
    case None => None
    case Some(readData) =>
      match ps.compression
      case Some(algo) =>
        (match Decompress(algo, readData)
         case None => None
         case Some(data) => Decode(ps.coder, data))
      case None => Decode(ps.coder, readData)
  }

  /** `write(_:)`: returns whether the write succeeded and the storage afterwards. */
  function Write<T>(ps: PersistentStorage<T>, element: Option<T>): (r: (bool, PersistentStorage<T>))
    ensures r.1.compression == ps.compression && r.1.coder == ps.coder
    ensures !r.0 ==> r.1 == ps
    ensures element.None? ==> r.0 == WriteData(ps.storage, None).0 && r.1.storage == WriteData(ps.storage, None).1
    ensures element.Some? && Encode(ps.coder, element.value) == None ==> r == (false, ps)
    ensures element.Some? && ps.compression == None && Encode(ps.coder, element.value).Some? ==>
              (r.0, r.1.storage) == WriteData(ps.storage, Encode(ps.coder, element.value))
    ensures (element.Some? && ps.compression.Some? && Encode(ps.coder, element.value).Some?
             && Compress(ps.compression.value, Encode(ps.coder, element.value).value) == None) ==> r == (false, ps)
    ensures (element.Some? && ps.compression.Some? && Encode(ps.coder, element.value).Some?
             && Compress(ps.compression.value, Encode(ps.coder, element.value).value).Some?) ==>
              (r.0, r.1.storage) == WriteData(ps.storage, Compress(ps.compression.value, Encode(ps.coder, element.value).value))
  {
    match element
    case None =>
      var (ok, s) := WriteData(ps.storage, None);
      (ok, ps.(storage := s))
    case Some(x) =>
      match Encode(ps.coder, x)
      case None => (false, ps)
      case Some(data) =>
        if ps.compression.None? then
          var (ok, s) := WriteData(ps.storage, Some(data));
          (ok, ps.(storage := s))
        else
          match Compress(ps.compression.value, data)
          case None => (false, ps)
          case Some(compressed) =>
            var (ok, s) := WriteData(ps.storage, Some(compressed));
            (ok, ps.(storage := s))
  }

  /** `nullStorage()`: the null backend, no compression, the null coder. */
  function NullPersistentStorage<T>(): (ps: PersistentStorage<T>)
    ensures ps.storage == NullStorage && ps.compression == None && ps.coder == NullCoder
  {
    PersistentStorage(NullStorage, None, NullCoder)
  }

  /** Through the base coder nothing is ever read and no value is ever written. */
  lemma BaseCoderAlwaysFails<T>(ps: PersistentStorage<T>, x: T)
    requires ps.coder == BaseCoder
    ensures Read(ps) == None
    ensures Write(ps, Some(x)) == (false, ps)
  {
  }

  /** A null storage reads nothing and accepts every write, `nil` and non-`nil` alike,
      without changing. */
  lemma NullStorageBehaviour<T>(element: Option<T>)
    ensures Read(NullPersistentStorage<T>()) == None
    ensures Write(NullPersistentStorage<T>(), element) == (true, NullPersistentStorage<T>())
  {
  }

  /** The coder decodes what it encodes for `x`. */
  ghost predicate CoderRoundTrips<T>(c: StorageCoder<T>, x: T) {
    forall d :: Encode(c, x) == Some(d) ==> Decode(c, d) == Some(x)
  }

  /** The compression (if any) restores what it compresses for `data`. */
  ghost predicate CompressionRoundTrips(compression: Option<Compressor>, data: Bytes) {
    compression.Some? ==>
      forall z :: Compress(compression.value, data) == Some(z) ==> Decompress(compression.value, z) == Some(data)
  }

  /** On a backend that returns the last written blob, a successful write of `x` is read
      back as `x`, provided the coder and the compression round-trip on it. */
  lemma WriteThenRead<T>(ps: PersistentStorage<T>, x: T)
    requires ps.storage.SlotStorage?
    requires CoderRoundTrips(ps.coder, x)
    requires Encode(ps.coder, x).Some? ==> CompressionRoundTrips(ps.compression, Encode(ps.coder, x).value)
    ensures Write(ps, Some(x)).0 ==> Read(Write(ps, Some(x)).1) == Some(x)
  {
    var (ok, ps') := Write(ps, Some(x));
    if ok {
      var data := Encode(ps.coder, x).value;
      assert Decode(ps.coder, data) == Some(x);
      if ps.compression.Some? {
        var z := Compress(ps.compression.value, data).value;
        assert ReadData(ps'.storage) == Some(z);
        assert Decompress(ps.compression.value, z) == Some(data);
      } else {
        assert ReadData(ps'.storage) == Some(data);
      }
    }
  }

  /** A successful write of `nil` deletes: a slot backend then reads nothing. */
  lemma DeleteThenRead<T>(ps: PersistentStorage<T>)
    requires ps.storage.SlotStorage?
    ensures Write(ps, None).0 ==> Read(Write(ps, None).1) == None
  {
  }
}
