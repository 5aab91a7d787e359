/** zlib as an abstract streaming codec: what `compressobj` and `decompressobj` promise. */
module Codec {
  import opened Results
  import opened Bytes

  datatype Inflated<D> = Inflated(plain: bytes, next: D) | Corrupt

  /** A compressor state `C` and a decompressor state `D` with the operations on them.
      `inflate` gives the content of a whole stream and `ready` the output that a stream prefix
      determines; `encodes` and `decodes` say what a state has taken in and given out. */
  datatype Zlib<!C, !D> = Zlib(
    startC: C,
    compress: (C, bytes) -> (C, bytes),
    flushC: C -> bytes,
    startD: D,
    decompress: (D, bytes, nat) -> Inflated<D>,
    flushD: D -> Inflated<D>,
    tail: D -> bytes,
    unused: D -> bytes,
    eof: D -> bool,
    inflate: bytes -> Option<bytes>,
    ready: bytes -> bytes,
    encodes: (C, bytes, bytes) -> bool,
    decodes: (D, bytes, bytes) -> bool)

  /** No stream starts with, or is a prefix of, these bytes. */
  ghost predicate Hopeless<C(!new), D(!new)>(z: Zlib<C, D>, s: bytes) {
    && (forall t: bytes {:trigger s + t} :: z.inflate(s + t).None?)
    && (forall k: nat {:trigger s[..k]} :: k <= |s| ==> z.inflate(s[..k]).None?)
  }

  ghost predicate LawfulEncoder<C(!new), D(!new)>(z: Zlib<C, D>) {
    && z.encodes(z.startC, [], [])
    && (forall c: C, plain: bytes, out: bytes, x: bytes {:trigger z.encodes(c, plain, out), z.compress(c, x)} ::
          z.encodes(c, plain, out) ==> z.encodes(z.compress(c, x).0, plain + x, out + z.compress(c, x).1))
    && (forall c: C, plain: bytes, out: bytes {:trigger z.encodes(c, plain, out)} ::
          z.encodes(c, plain, out) ==> z.inflate(out + z.flushC(c)) == Some(plain))
  }

  ghost predicate LawfulStreams<C(!new), D(!new)>(z: Zlib<C, D>) {
    && z.inflate([]).None?
    && (forall s: bytes, t: bytes {:trigger z.inflate(s + t)} ::
          z.inflate(s).Some? && z.inflate(s + t).Some? ==> t == [])
    && (forall s: bytes, t: bytes {:trigger z.inflate(s + t)} ::
          z.inflate(s + t).Some? ==> z.ready(s) <= z.inflate(s + t).value)
    && (forall s: bytes {:trigger z.inflate(s)} :: z.inflate(s).Some? ==> z.ready(s) == z.inflate(s).value)
  }

  /** One call `decompress(x, limit)` on a state that took `taken`, gave `given` and has not ended. */
  ghost predicate DecompressLaw<C(!new), D(!new)>(z: Zlib<C, D>, d: D, taken: bytes, given: bytes, x: bytes, limit: nat) {
    match z.decompress(d, x, limit)
    case Corrupt => Hopeless(z, taken + x)
    case Inflated(plain, e) =>
      && |plain| <= limit
      && |z.tail(e)| + |z.unused(e)| <= |x|
      && var k := |x| - |z.tail(e)| - |z.unused(e)|;
         && z.decodes(e, taken + x[..k], given + plain)
         && given + plain <= z.ready(taken + x[..k])
         && (if z.eof(e) then z.tail(e) == [] && z.unused(e) == x[k..] && z.inflate(taken + x[..k]) == Some(given + plain)
             else z.unused(e) == [] && z.tail(e) == x[k..] && (x[k..] != [] ==> |plain| == limit))
  }

  ghost predicate FlushLaw<C(!new), D(!new)>(z: Zlib<C, D>, d: D, taken: bytes, given: bytes) {
    match z.flushD(d)
    case Corrupt => Hopeless(z, taken)
    case Inflated(plain, e) =>
      && given + plain == z.ready(taken) && z.unused(e) == []
      && (z.eof(e) <==> z.inflate(taken).Some?)
  }

  /** After its stream has ended a decompressor only collects unused bytes. */
  ghost predicate EndedLaw<C(!new), D(!new)>(z: Zlib<C, D>, d: D, x: bytes, limit: nat) {
    && z.decompress(d, x, limit).Inflated? && z.flushD(d) == Inflated([], d)
    && var (plain, e) := (z.decompress(d, x, limit).plain, z.decompress(d, x, limit).next);
       plain == [] && z.eof(e) && z.tail(e) == [] && z.unused(e) == z.unused(d) + x
  }

  ghost predicate LawfulDecoder<C(!new), D(!new)>(z: Zlib<C, D>) {
    && z.decodes(z.startD, [], []) && !z.eof(z.startD) && z.tail(z.startD) == [] && z.unused(z.startD) == []
    && (forall d: D, taken: bytes, given: bytes, x: bytes, limit: nat
          {:trigger z.decodes(d, taken, given), z.decompress(d, x, limit)} ::
          z.decodes(d, taken, given) && !z.eof(d) && limit > 0 ==> DecompressLaw(z, d, taken, given, x, limit))
    && (forall d: D, taken: bytes, given: bytes {:trigger z.decodes(d, taken, given)} ::
          z.decodes(d, taken, given) && !z.eof(d) ==> FlushLaw(z, d, taken, given))
    && (forall d: D, x: bytes, limit: nat {:trigger z.decompress(d, x, limit)} :: z.eof(d) && limit > 0 ==> EndedLaw(z, d, x, limit))
    && (forall d: D {:trigger z.flushD(d)} :: z.eof(d) ==> z.flushD(d) == Inflated([], d))
  }

  ghost predicate Lawful<C(!new), D(!new)>(z: Zlib<C, D>) {
    LawfulEncoder(z) && LawfulStreams(z) && LawfulDecoder(z)
  }
}
