/** A concrete codec that satisfies the zlib laws: each byte is stored behind a flag. */
module StoredCodec {
  import opened Results
  import opened Bytes
  import opened Codec

  /** Where a stream prefix stands: before a flag, behind flag 1, after flag 0, or ill-formed. */
  datatype Phase = AtFlag | AtByte | Ended | Broken

  function Next(p: Phase, b: byte): Phase {
    match p
    case AtFlag => if b == 1 then AtByte else if b == 0 then Ended else Broken
    case AtByte => AtFlag
    case _ => Broken
  }

  function Scan(p: Phase, s: bytes): Phase
    decreases s
  {
    if s == [] then p else Scan(Next(p, s[0]), s[1..])
  }

  function Output(p: Phase, s: bytes): bytes
    decreases s
  {
    if s == [] then [] else (if p.AtByte? then [s[0]] else []) + Output(Next(p, s[0]), s[1..])
  }

  function Encode(data: bytes): bytes {
    if data == [] then [] else [1, data[0]] + Encode(data[1..])
  }

  function Inflate(s: bytes): Option<bytes> {
    if Scan(AtFlag, s).Ended? then Some(Output(AtFlag, s)) else None
  }

  function Ready(s: bytes): bytes { Output(AtFlag, s) }

  datatype Dec = Dec(phase: Phase, left: bytes, extra: bytes)

  /** Bytes taken and produced from `x` before the stream ends, breaks, or `limit` is reached. */
  function Take(p: Phase, x: bytes, limit: nat): nat
    decreases x
  {
    if x == [] || p.Ended? || p.Broken? || limit == 0 then 0
    else 1 + Take(Next(p, x[0]), x[1..], if p.AtByte? then limit - 1 else limit)
  }

  function Decompress(d: Dec, x: bytes, limit: nat): Inflated<Dec>
  {
    if d.phase.Ended? then Inflated([], Dec(Ended, [], d.extra + x))
    else
      TakeBounds(d.phase, x, limit);
      var k := Take(d.phase, x, limit);
      var p := Scan(d.phase, x[..k]);
      if p.Broken? then Corrupt
      else if p.Ended? then Inflated(Output(d.phase, x[..k]), Dec(p, [], x[k..]))
      else Inflated(Output(d.phase, x[..k]), Dec(p, x[k..], []))
  }

  const Stop: bytes := [0]

  const Stored: Zlib<(), Dec> := Zlib(
    (), (c: (), x: bytes) => ((), Encode(x)), (c: ()) => Stop,
    Dec(AtFlag, [], []), Decompress, (d: Dec) => Inflated([], d),
    (d: Dec) => d.left, (d: Dec) => d.extra, (d: Dec) => d.phase.Ended?,
    Inflate, Ready,
    (c: (), plain: bytes, out: bytes) => out == Encode(plain),
    (d: Dec, taken: bytes, given: bytes) =>
      !d.phase.Broken? && (d.phase.Ended? || d.extra == []) && d.phase == Scan(AtFlag, taken) && given == Output(AtFlag, taken))

  lemma TakeBounds(p: Phase, x: bytes, limit: nat)
    decreases x
    ensures Take(p, x, limit) <= |x|
  {
    if Take(p, x, limit) > 0 { TakeBounds(Next(p, x[0]), x[1..], if p.AtByte? then limit - 1 else limit); }
  }

  lemma {:induction false} ScanSplit(p: Phase, a: bytes, b: bytes)
    ensures Scan(p, a + b) == Scan(Scan(p, a), b)
    ensures Output(p, a + b) == Output(p, a) + Output(Scan(p, a), b)
    decreases a
  {
    if a == [] { assert a + b == b; }
    else {
      assert (a + b)[1..] == a[1..] + b;
      ScanSplit(Next(p, a[0]), a[1..], b);
    }
  }

  lemma {:induction false} BrokenStays(s: bytes)
    ensures Scan(Broken, s) == Broken && Output(Broken, s) == []
  {
    if s != [] { BrokenStays(s[1..]); }
  }

  lemma EndedBreaks(s: bytes)
    ensures s != [] ==> Scan(Ended, s) == Broken
    ensures Output(Ended, s) == []
  {
    if s != [] { BrokenStays(s[1..]); }
  }

  lemma {:induction false} EncodeScans(a: bytes)
    ensures Scan(AtFlag, Encode(a)) == AtFlag && Output(AtFlag, Encode(a)) == a
  {
    if a != [] {
      var rest := Encode(a[1..]);
      EncodeScans(a[1..]);
      var pair: bytes := [1, a[0]];
      ScanSplit(AtFlag, pair, rest);
      assert pair[1..] == [a[0]] && [a[0]][1..] == [];
      assert Scan(AtByte, [a[0]]) == AtFlag && Output(AtByte, [a[0]]) == [a[0]];
    }
  }

  lemma {:induction false} EncodeAppend(a: bytes, b: bytes)
    ensures Encode(a + b) == Encode(a) + Encode(b)
    decreases a
  {
    if a == [] { assert a + b == b; }
    else {
      assert (a + b)[1..] == a[1..] + b;
      EncodeAppend(a[1..], b);
    }
  }

  /** What a bounded run over `x` leaves: the limit is respected, and stopping short means the
      stream ended, broke, or filled the limit. */
  lemma {:induction false} TakeRuns(p: Phase, x: bytes, limit: nat)
    requires !p.Broken?
    ensures Take(p, x, limit) <= |x|
    ensures var k := Take(p, x, limit);
            && |Output(p, x[..k])| <= limit
            && (k < |x| && !Scan(p, x[..k]).Ended? && !Scan(p, x[..k]).Broken? ==> |Output(p, x[..k])| == limit)
            && forall j :: 0 <= j < k ==> !Scan(p, x[..j]).Ended?
    decreases x
  {
    var k := Take(p, x, limit);
    if k > 0 {
      var q, l := Next(p, x[0]), if p.AtByte? then limit - 1 else limit;
      TakeBounds(q, x[1..], l);
      assert x[..k][1..] == x[1..][..k - 1];
      if q.Broken? {
        assert Take(q, x[1..], l) == 0;
        BrokenStays([]);
      } else {
        TakeRuns(q, x[1..], l);
      }
      forall j | 0 <= j < k ensures !Scan(p, x[..j]).Ended? {
        if j > 0 { assert x[..j][1..] == x[1..][..j - 1]; }
      }
    }
  }

  lemma StreamLaws()
    ensures LawfulStreams(Stored)
  {
    forall s: bytes, t: bytes
      ensures Inflate(s).Some? && Inflate(s + t).Some? ==> t == []
      ensures Inflate(s + t).Some? ==> Ready(s) <= Inflate(s + t).value
    {
      ScanSplit(AtFlag, s, t);
      EndedBreaks(t);
    }
  }

  lemma EncoderLaws()
    ensures LawfulEncoder(Stored)
  {
    forall plain: bytes, x: bytes ensures Encode(plain + x) == Encode(plain) + Encode(x) {
      EncodeAppend(plain, x);
    }
    forall plain: bytes ensures Inflate(Encode(plain) + Stop) == Some(plain) {
      EncodeScans(plain);
      ScanSplit(AtFlag, Encode(plain), Stop);
      assert Stop[1..] == [];
      assert Scan(AtFlag, Stop) == Ended && Output(AtFlag, Stop) == [] && plain + [] == plain;
    }
  }

  lemma HopelessWhenBroken(s: bytes)
    requires Scan(AtFlag, s).Broken? && forall k :: 0 <= k < |s| ==> !Scan(AtFlag, s[..k]).Ended?
    ensures Hopeless(Stored, s)
  {
    forall t: bytes ensures Inflate(s + t).None? {
      ScanSplit(AtFlag, s, t);
      BrokenStays(t);
    }
    forall k: nat | k <= |s| ensures Inflate(s[..k]).None? {
      if k == |s| { assert s[..k] == s; }
    }
  }

  lemma DecompressObeys(d: Dec, taken: bytes, given: bytes, x: bytes, limit: nat)
    requires Stored.decodes(d, taken, given) && !d.phase.Ended? && limit > 0
    ensures DecompressLaw(Stored, d, taken, given, x, limit)
  {
    TakeRuns(d.phase, x, limit);
    var k := Take(d.phase, x, limit);
    var p := Scan(d.phase, x[..k]);
    ScanSplit(AtFlag, taken, x[..k]);
    if p.Broken? {
      BrokenPrefix(d.phase, taken, x, k);
    }
    assert x == x[..k] + x[k..];
  }

  lemma BrokenPrefix(p: Phase, taken: bytes, x: bytes, k: nat)
    requires p == Scan(AtFlag, taken) && !p.Broken? && !p.Ended? && k <= |x|
    requires Scan(p, x[..k]).Broken? && forall j :: 0 <= j < k ==> !Scan(p, x[..j]).Ended?
    ensures Hopeless(Stored, taken + x)
  {
    var s := taken + x;
    forall j: nat | j <= |s| ensures !Scan(AtFlag, s[..j]).Ended? {
      if j <= |taken| {
        assert s[..j] + taken[j..] == taken;
        ScanSplit(AtFlag, s[..j], taken[j..]);
        EndedBreaks(taken[j..]);
        assert j == |taken| ==> s[..j] == taken;
      } else {
        var m := j - |taken|;
        assert s[..j] == taken + x[..m];
        ScanSplit(AtFlag, taken, x[..m]);
        if m >= k {
          assert x[..m] == x[..k] + x[k..m];
          ScanSplit(p, x[..k], x[k..m]);
          BrokenStays(x[k..m]);
        }
      }
    }
    assert x == x[..k] + x[k..];
    ScanSplit(AtFlag, taken, x);
    ScanSplit(p, x[..k], x[k..]);
    BrokenStays(x[k..]);
    HopelessWhenBroken(s);
  }

  /** The laws asked of zlib are satisfiable. */
  lemma StoredIsLawful()
    ensures Lawful(Stored)
  {
    StreamLaws();
    EncoderLaws();
    forall d: Dec, taken: bytes, given: bytes, x: bytes, limit: nat
      | Stored.decodes(d, taken, given) && !Stored.eof(d) && limit > 0
      ensures DecompressLaw(Stored, d, taken, given, x, limit)
    {
      DecompressObeys(d, taken, given, x, limit);
    }
    forall d: Dec, taken: bytes, given: bytes | Stored.decodes(d, taken, given) && !Stored.eof(d)
      ensures FlushLaw(Stored, d, taken, given)
    {
      assert given + [] == given;
    }
    forall d: Dec, x: bytes, limit: nat | Stored.eof(d) && limit > 0 ensures EndedLaw(Stored, d, x, limit) {
    }
    assert LawfulDecoder(Stored);
  }
}
