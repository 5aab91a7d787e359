/** The `backups` directory: publishing an archive with its sidecar, and deleting one. */
module ArchiveStore {
  import opened Results
  import opened Bytes
  import opened Text

  datatype Node = File(content: bytes) | Other

  /** Directory entries point to inodes; two names may share one. */
  datatype Dir = Dir(entries: map<text, nat>, nodes: map<nat, Node>, next: nat)

  ghost predicate DirOk(d: Dir) {
    && (forall n :: n in d.entries ==> d.entries[n] in d.nodes)
    && (forall i :: i in d.nodes ==> i < d.next)
  }

  /** What a reader of the directory sees: names and contents. */
  ghost function View(d: Dir): map<text, Node>
    requires DirOk(d)
  {
    map n | n in d.entries :: d.nodes[d.entries[n]]
  }

  datatype OsError = FileExists | NotFound | Failed
  datatype StoreError = AlreadyExists | Missing | State | TooLarge | Empty | NotZip

  /** The directory behind its descriptor. Any call may fail, and then changes nothing. */
  class Directory {
    var d: Dir
    /** Whether any call has failed by itself, a write that takes nothing included. */
    ghost var faulted: bool
    /** The names whose last `unlink` failed. */
    ghost var stubborn: set<text>

    constructor (d: Dir)
      ensures this.d == d && !faulted && stubborn == {}
    {
      this.d, faulted, stubborn := d, false, {};
    }

    /** Anything else that may go wrong: reading the source, `fsync`, `close`. */
    method Answer() returns (ok: bool)
      modifies this`faulted
      ensures faulted == (old(faulted) || !ok)
    {
      ok := *;
      faulted := faulted || !ok;
    }

    method OpenExclusive(name: text) returns (r: Result<nat, OsError>)
      requires DirOk(d)
      modifies this`d, this`faulted
      ensures DirOk(d) && (old(faulted) ==> faulted)
      ensures r.Err? ==> d == old(d) && (faulted || name in d.entries)
      ensures r.Ok? ==> name !in old(d).entries && r.value == old(d).next
                        && d == Dir(old(d).entries[name := r.value], old(d).nodes[r.value := File([])], old(d).next + 1)
    {
      var ok := Answer();
      if !ok { return Err(Failed); }
      if name in d.entries { return Err(FileExists); }
      var i := d.next;
      d := Dir(d.entries[name := i], d.nodes[i := File([])], i + 1);
      return Ok(i);
    }

    /** `os.write`: any part of the data may be taken. */
    method Write(i: nat, data: bytes) returns (taken: Option<nat>)
      requires DirOk(d) && i in d.nodes && d.nodes[i].File?
      modifies this`d, this`faulted
      ensures DirOk(d) && (old(faulted) ==> faulted)
      ensures taken.None? ==> d == old(d) && faulted
      ensures taken == Some(0) && data != [] ==> faulted
      ensures taken.Some? ==> taken.value <= |data|
                              && d == old(d).(nodes := old(d).nodes[i := File(old(d).nodes[i].content + data[..taken.value])])
    {
      var ok := Answer();
      if !ok { return None; }
      var n: nat :| n <= |data|;
      faulted := faulted || (n == 0 && data != []);
      d := d.(nodes := d.nodes[i := File(d.nodes[i].content + data[..n])]);
      return Some(n);
    }

    method Link(from: text, to: text) returns (error: Option<OsError>)
      requires DirOk(d)
      modifies this`d, this`faulted
      ensures DirOk(d) && (old(faulted) ==> faulted)
      ensures error.Some? ==> d == old(d)
      ensures error == Some(Failed) ==> faulted
      ensures error == Some(NotFound) ==> from !in d.entries
      ensures error == Some(FileExists) ==> to in d.entries
      ensures error.None? ==> from in old(d).entries && to !in old(d).entries
                              && d == old(d).(entries := old(d).entries[to := old(d).entries[from]])
    {
      var ok := Answer();
      if !ok { return Some(Failed); }
      if from !in d.entries { return Some(NotFound); }
      if to in d.entries { return Some(FileExists); }
      d := d.(entries := d.entries[to := d.entries[from]]);
      return None;
    }

    method Unlink(name: text) returns (error: Option<OsError>)
      requires DirOk(d)
      modifies this
      ensures DirOk(d) && (old(faulted) ==> faulted)
      ensures error.Some? ==> (error.value.Failed? && faulted) || (error.value.NotFound? && name !in d.entries)
      ensures name !in stubborn ==> name !in d.entries
      ensures stubborn == if error == Some(Failed) then old(stubborn) + {name} else old(stubborn) - {name}
      ensures error.Some? ==> d == old(d)
      ensures error.None? ==> name in old(d).entries && d == old(d).(entries := old(d).entries - {name})
    {
      var ok := Answer();
      if !ok {
        stubborn := stubborn + {name};
        return Some(Failed);
      }
      stubborn := stubborn - {name};
      if name !in d.entries { return Some(NotFound); }
      d := d.(entries := d.entries - {name});
      return None;
    }
  }

  lemma TakenMore(payload: bytes, offset: nat, n: nat)
    requires offset + n <= |payload|
    ensures payload[..offset] + payload[offset..][..n] == payload[..offset + n]
  {
  }

  /** Writes everything or fails; short writes are continued. */
  method WriteAll(dir: Directory, i: nat, payload: bytes) returns (ok: bool)
    requires DirOk(dir.d) && i in dir.d.nodes && dir.d.nodes[i].File?
    modifies dir`d, dir`faulted
    ensures DirOk(dir.d) && i in dir.d.nodes && dir.d.nodes[i].File? && (old(dir.faulted) ==> dir.faulted)
    ensures !ok ==> dir.faulted
    ensures dir.d == old(dir.d).(nodes := old(dir.d).nodes[i := dir.d.nodes[i]])
    ensures old(dir.d).nodes[i].content <= dir.d.nodes[i].content
    ensures ok ==> dir.d.nodes[i].content == old(dir.d).nodes[i].content + payload
  {
    ghost var before := dir.d.nodes[i].content;
    var offset := 0;
    assert payload[..0] == [];
    while offset < |payload|
      invariant 0 <= offset <= |payload| && DirOk(dir.d)
      invariant i in dir.d.nodes && dir.d.nodes[i] == File(before + payload[..offset])
      invariant dir.d == old(dir.d).(nodes := old(dir.d).nodes[i := dir.d.nodes[i]])
      invariant old(dir.faulted) ==> dir.faulted
    {
      var written := dir.Write(i, payload[offset..]);
      if written.None? || written.value == 0 { return false; }
      TakenMore(payload, offset, written.value);
      offset := offset + written.value;
    }
    assert payload[..|payload|] == payload;
    return true;
  }

  /** `d` is `d0` with the names in `more` added, on inodes of their own. */
  ghost predicate Added(d0: Dir, d: Dir, more: map<text, nat>) {
    && DirOk(d0) && DirOk(d) && d.entries == d0.entries + more && more.Keys !! d0.entries.Keys
    && d0.next <= d.next && (forall n :: n in more ==> more[n] >= d0.next)
    && forall i :: i in d0.nodes ==> i in d.nodes && d.nodes[i] == d0.nodes[i]
  }

  lemma AddedTwice(d0: Dir, d1: Dir, d2: Dir, a: map<text, nat>, b: map<text, nat>)
    requires Added(d0, d1, a) && Added(d1, d2, b)
    ensures Added(d0, d2, a + b)
  {
    assert d0.entries + a + b == d0.entries + (a + b);
  }

  const MAGIC: seq<bytes> := [[0x50, 0x4B, 3, 4], [0x50, 0x4B, 5, 6], [0x50, 0x4B, 7, 8]]

  /** The first four bytes are those of a ZIP file. */
  predicate LooksLikeZip(data: bytes) { exists m :: m in MAGIC && m <= data }

  /** A local header, an end record or a spanning marker. */
  predicate StartsAsZip(data: bytes) {
    && |data| >= 4 && data[0] == 'P' as int && data[1] == 'K' as int
    && ((data[2] == 3 && data[3] == 4) || (data[2] == 5 && data[3] == 6) || (data[2] == 7 && data[3] == 8))
  }

  lemma LooksIsStarts(data: bytes)
    ensures LooksLikeZip(data) <==> StartsAsZip(data)
  {
    if StartsAsZip(data) {
      assert data[..4] == MAGIC[0] || data[..4] == MAGIC[1] || data[..4] == MAGIC[2];
      assert data[..4] in MAGIC && data[..4] <= data;
    }
  }

  predicate SourceOk(data: bytes, maxSize: Option<nat>, sniff: bool) {
    data != [] && (maxSize.Some? ==> |data| <= maxSize.value) && (sniff ==> StartsAsZip(data))
  }

  /** What an error says, as long as nothing has failed by itself. */
  predicate Blames(error: StoreError, data: bytes, maxSize: Option<nat>, sniff: bool, taken: bool) {
    match error
    case AlreadyExists => taken
    case TooLarge => maxSize.Some? && |data| > maxSize.value
    case Empty => data == []
    case NotZip => sniff && !StartsAsZip(data)
    case _ => false
  }

  /** The first four bytes, as far as there are any. */
  function Head(data: bytes): bytes { data[..if |data| < 4 then |data| else 4] }

  lemma HeadGrows(data: bytes, more: bytes)
    ensures |Head(data)| < 4 ==>
              Head(data + more) == Head(data) + more[..if |more| < 4 - |Head(data)| then |more| else 4 - |Head(data)|]
    ensures |Head(data)| == 4 ==> Head(data + more) == Head(data)
  {
  }

  lemma HeadLooks(data: bytes)
    ensures LooksLikeZip(Head(data)) <==> LooksLikeZip(data)
  {
    if m :| m in MAGIC && m <= data { assert m <= Head(data); }
  }

  lemma HeadStarts(data: bytes)
    ensures LooksLikeZip(Head(data)) <==> StartsAsZip(data)
  {
    HeadLooks(data);
    LooksIsStarts(data);
  }

  lemma PartIsShorter(chunks: seq<bytes>, k: nat)
    requires k <= |chunks|
    ensures |Concat(chunks[..k])| <= |Concat(chunks)|
  {
    assert chunks == chunks[..k] + chunks[k..];
    ConcatAppend(chunks[..k], chunks[k..]);
  }

  /** Copies the source into a new temporary file. `chunks` is what reading it gives. */
  method StoreSource(dir: Directory, temporary: text, chunks: seq<bytes>, maxSize: Option<nat>, sniff: bool)
    returns (r: Result<nat, StoreError>, ghost more: map<text, nat>)
    requires DirOk(dir.d)
    modifies dir`d, dir`faulted
    ensures Added(old(dir.d), dir.d, more) && more.Keys <= {temporary} && (old(dir.faulted) ==> dir.faulted)
    ensures r.Err? ==> dir.faulted || temporary in old(dir.d).entries || Blames(r.error, Concat(chunks), maxSize, sniff, false)
    ensures r.Ok? ==> more == map[temporary := r.value] && r.value in dir.d.nodes
                      && dir.d.nodes[r.value] == File(Concat(chunks)) && SourceOk(Concat(chunks), maxSize, sniff)
  {
    more := map[];
    var handle := dir.OpenExclusive(temporary);
    if handle.Err? { return Err(State), more; }
    var i := handle.value;
    more := map[temporary := i];
    ghost var content: bytes := [];
    var size := 0;
    var prefix: bytes := [];
    for k := 0 to |chunks|
      invariant Added(old(dir.d), dir.d, more) && i == old(dir.d).next && i in dir.d.nodes
      invariant content == Concat(chunks[..k]) && dir.d.nodes[i] == File(content)
      invariant size == |content| && prefix == Head(content)
      invariant (maxSize.Some? ==> size <= maxSize.value) && (old(dir.faulted) ==> dir.faulted)
    {
      var answered := dir.Answer();
      if !answered { return Err(State), more; }
      assert chunks[..k + 1] == chunks[..k] + [chunks[k]];
      ConcatSnoc(chunks[..k], chunks[k]);
      var payload := chunks[k];
      HeadGrows(content, payload);
      if |prefix| < 4 {
        prefix := prefix + payload[..if |payload| < 4 - |prefix| then |payload| else 4 - |prefix|];
      }
      size := size + |payload|;
      content := content + payload;
      if maxSize.Some? && size > maxSize.value {
        PartIsShorter(chunks, k + 1);
        return Err(TooLarge), more;
      }
      var wrote := WriteAll(dir, i, payload);
      if !wrote { return Err(State), more; }
    }
    assert chunks[..|chunks|] == chunks;
    if size <= 0 { return Err(Empty), more; }
    HeadStarts(content);
    if sniff && !LooksLikeZip(prefix) { return Err(NotZip), more; }
    var synced := dir.Answer();
    if !synced { return Err(State), more; }
    return Ok(i), more;
  }

  method StoreSidecar(dir: Directory, temporary: text, payload: bytes)
    returns (r: Result<nat, StoreError>, ghost more: map<text, nat>)
    requires DirOk(dir.d)
    modifies dir`d, dir`faulted
    ensures Added(old(dir.d), dir.d, more) && more.Keys <= {temporary} && (old(dir.faulted) ==> dir.faulted)
    ensures r.Err? ==> dir.faulted || temporary in old(dir.d).entries
    ensures r.Ok? ==> more == map[temporary := r.value] && r.value in dir.d.nodes && dir.d.nodes[r.value] == File(payload)
  {
    more := map[];
    var handle := dir.OpenExclusive(temporary);
    if handle.Err? { return Err(State), more; }
    more := map[temporary := handle.value];
    var wrote := WriteAll(dir, handle.value, payload);
    if !wrote { return Err(State), more; }
    assert [] + payload == payload;
    var synced := dir.Answer();
    return if synced then Ok(handle.value) else Err(State), more;
  }

  /** The names one call of `publish` works with. The temporary names hold a random token. */
  datatype Names = Names(key: text, attrs: text, temporary: text, attrsTemporary: text)

  const ATTRS_SUFFIX: text := Txt(".attrs")

  ghost predicate NamesOk(ns: Names) {
    && ns.attrs == ns.key + ATTRS_SUFFIX && ns.attrs != ns.key && ns.temporary != ns.attrsTemporary
    && ns.attrs != ns.temporary && ns.attrs != ns.attrsTemporary
  }

  /** The names for a key and a token. */
  function NamesFor(key: text, token: text): Names {
    var stem := Txt(".upload-") + token;
    Names(key, key + ATTRS_SUFFIX, stem + Txt(".tmp"), stem + Txt(".attrs.tmp"))
  }

  /** The four names never coincide, whatever the key. */
  lemma NamesForOk(key: text, token: text)
    ensures NamesOk(NamesFor(key, token))
  {
    var ns := NamesFor(key, token);
    assert ns.attrs[|ns.attrs| - 1] == 's' as int;
    assert ns.temporary[|ns.temporary| - 1] == 'p' as int && ns.attrsTemporary[|ns.attrsTemporary| - 1] == 'p' as int;
  }

  ghost function Temps(ns: Names): set<text> { {ns.temporary, ns.attrsTemporary} }

  /** Two directories agree on every name outside `names`. */
  ghost predicate SameOff(e0: map<text, nat>, e: map<text, nat>, names: set<text>) {
    forall n :: n !in names ==> (n in e <==> n in e0) && (n in e ==> e[n] == e0[n])
  }

  /** The published names as far as they exist. */
  ghost function Own(ns: Names, linked: bool, attrsLinked: bool): set<text> {
    (if linked then {ns.key} else {}) + (if attrsLinked then {ns.attrs} else {})
  }

  /** The two links and the final sync. */
  method LinkBoth(dir: Directory, ns: Names)
    returns (error: Option<StoreError>, linked: bool, attrsLinked: bool, published: bool)
    requires DirOk(dir.d) && NamesOk(ns) && ns.temporary in dir.d.entries && ns.attrsTemporary in dir.d.entries
    modifies dir
    ensures DirOk(dir.d) && dir.d.nodes == old(dir.d).nodes
    ensures SameOff(old(dir.d).entries, dir.d.entries, Temps(ns) + Own(ns, linked, attrsLinked))
    ensures linked ==> ns.key !in old(dir.d).entries && ns.key in dir.d.entries
                       && dir.d.entries[ns.key] == old(dir.d).entries[ns.temporary]
    ensures attrsLinked ==> linked && ns.attrs !in old(dir.d).entries && ns.attrs in dir.d.entries
                            && dir.d.entries[ns.attrs] == old(dir.d).entries[ns.attrsTemporary]
    ensures published ==> attrsLinked && dir.d.entries.Keys !! Temps(ns)
    ensures published <==> error.None?
    ensures old(dir.faulted) ==> dir.faulted
    ensures error.Some? ==> dir.faulted || (error == Some(AlreadyExists)
                                            && (ns.key in old(dir.d).entries || ns.attrs in old(dir.d).entries))
  {
    linked, attrsLinked, published := false, false, false;
    var failed := dir.Link(ns.temporary, ns.key);
    if failed.Some? { return Some(if failed.value.FileExists? then AlreadyExists else State), false, false, false; }
    linked := true;
    failed := dir.Unlink(ns.temporary);
    if failed.Some? { return Some(State), true, false, false; }
    failed := dir.Link(ns.attrsTemporary, ns.attrs);
    if failed.Some? { return Some(if failed.value.FileExists? then AlreadyExists else State), true, false, false; }
    attrsLinked := true;
    failed := dir.Unlink(ns.attrsTemporary);
    if failed.Some? { return Some(State), true, true, false; }
    var synced := dir.Answer();
    if !synced { return Some(State), true, true, false; }
    return None, true, true, true;
  }

  /** `unlink` whose failure is swallowed. */
  method Discard(dir: Directory, name: text)
    requires DirOk(dir.d)
    modifies dir
    ensures DirOk(dir.d) && dir.d.nodes == old(dir.d).nodes && (old(dir.faulted) ==> dir.faulted)
    ensures SameOff(old(dir.d).entries, dir.d.entries, {name}) && dir.d.entries.Keys <= old(dir.d).entries.Keys
    ensures name !in dir.stubborn ==> name !in dir.d.entries
    ensures forall n :: n != name ==> (n in dir.stubborn <==> n in old(dir.stubborn))
  {
    var failed := dir.Unlink(name);
  }

  /** The `finally` block: every name whose `unlink` did not fail is gone. */
  method Cleanup(dir: Directory, ns: Names, dropKey: bool, dropAttrs: bool)
    requires DirOk(dir.d)
    modifies dir
    ensures DirOk(dir.d) && dir.d.nodes == old(dir.d).nodes && (old(dir.faulted) ==> dir.faulted)
    ensures SameOff(old(dir.d).entries, dir.d.entries, Temps(ns) + Own(ns, dropKey, dropAttrs))
    ensures dir.d.entries.Keys <= old(dir.d).entries.Keys
    ensures forall n :: n in Temps(ns) + Own(ns, dropKey, dropAttrs) && n !in dir.stubborn ==> n !in dir.d.entries
  {
    Discard(dir, ns.temporary);
    Discard(dir, ns.attrsTemporary);
    if dropKey { Discard(dir, ns.key); }
    if dropAttrs { Discard(dir, ns.attrs); }
  }

  ghost function Without(v: map<text, Node>, ns: Names): map<text, Node> { v - Temps(ns) }

  /** The directory with the archive and its sidecar added, and nothing else changed. */
  ghost predicate Published(d0: Dir, d: Dir, ns: Names, data: bytes, sidecar: bytes)
    requires DirOk(d0) && DirOk(d)
  {
    && ns.key !in d0.entries && ns.attrs !in d0.entries
    && View(d) == Without(View(d0), ns) + map[ns.key := File(data), ns.attrs := File(sidecar)]
  }

  /** No name but the temporary ones is overwritten or removed, and none but the call's own appears. */
  ghost predicate OthersKept(d0: Dir, d: Dir, ns: Names)
    requires DirOk(d0) && DirOk(d)
  {
    && (forall n :: n in d0.entries && n !in Temps(ns) ==> n in d.entries && View(d)[n] == View(d0)[n])
    && (forall n :: n in d.entries && n !in d0.entries ==> n == ns.key || n == ns.attrs || n in Temps(ns))
  }

  ghost predicate NodesKept(d0: Dir, d: Dir) {
    forall i :: i in d0.nodes ==> i in d.nodes && d.nodes[i] == d0.nodes[i]
  }

  /** What linking has made of the directory, before the cleanup. */
  ghost predicate Landed(d0: Dir, d: Dir, ns: Names, linked: bool, attrsLinked: bool) {
    && DirOk(d0) && DirOk(d) && NodesKept(d0, d)
    && SameOff(d0.entries, d.entries, Temps(ns) + Own(ns, linked, attrsLinked))
    && (linked ==> ns.key !in d0.entries && ns.key !in Temps(ns)) && (attrsLinked ==> linked && ns.attrs !in d0.entries)
  }

  ghost predicate Holds(d: Dir, name: text, content: bytes) {
    name in d.entries && d.entries[name] in d.nodes && d.nodes[d.entries[name]] == File(content)
  }

  lemma PublishedView(d0: Dir, d: Dir, ns: Names, data: bytes, sidecar: bytes)
    requires NamesOk(ns) && Landed(d0, d, ns, true, true) && d.entries.Keys !! Temps(ns)
    requires Holds(d, ns.key, data) && Holds(d, ns.attrs, sidecar)
    ensures Published(d0, d, ns, data, sidecar) && OthersKept(d0, d, ns)
  {
    var want := Without(View(d0), ns) + map[ns.key := File(data), ns.attrs := File(sidecar)];
    forall n ensures n in View(d) <==> n in want { }
    forall n | n in want ensures View(d)[n] == want[n] { }
  }

  lemma DroppedView(d0: Dir, d1: Dir, d: Dir, ns: Names, linked: bool, attrsLinked: bool, clean: bool)
    requires NamesOk(ns) && Landed(d0, d1, ns, linked, attrsLinked) && DirOk(d) && d.nodes == d1.nodes
    requires SameOff(d1.entries, d.entries, Temps(ns) + Own(ns, linked, attrsLinked))
    requires clean ==> d.entries.Keys !! Temps(ns) + Own(ns, linked, attrsLinked)
    ensures OthersKept(d0, d, ns) && (clean ==> View(d) == Without(View(d0), ns))
  {
    forall n | n !in Temps(ns) + Own(ns, linked, attrsLinked)
      ensures n in d.entries <==> n in d0.entries
      ensures n in d.entries ==> d.entries[n] == d0.entries[n] { }
    if clean {
      forall n ensures n in View(d) <==> n in Without(View(d0), ns) { }
    }
  }

  lemma AddedLanded(d0: Dir, d: Dir, ns: Names, more: map<text, nat>)
    requires Added(d0, d, more) && more.Keys <= Temps(ns)
    ensures Landed(d0, d, ns, false, false)
  {
  }

  lemma LinkedLanded(d0: Dir, d1: Dir, d: Dir, ns: Names, more: map<text, nat>, linked: bool, attrsLinked: bool)
    requires Added(d0, d1, more) && more.Keys == Temps(ns) && DirOk(d) && d.nodes == d1.nodes
    requires SameOff(d1.entries, d.entries, Temps(ns) + Own(ns, linked, attrsLinked))
    requires (linked ==> ns.key !in d1.entries) && (attrsLinked ==> linked && ns.attrs !in d1.entries)
    ensures Landed(d0, d, ns, linked, attrsLinked)
  {
    AddedLanded(d0, d1, ns, more);
    assert forall n :: n in Temps(ns) ==> n in d1.entries;
  }

  ghost predicate NameTaken(d: Dir, ns: Names) { ns.key in d.entries || ns.attrs in d.entries }

  /** Another upload's temporary name is in use, or this one's is the key itself. */
  ghost predicate TokenTaken(d: Dir, ns: Names) {
    ns.temporary in d.entries || ns.attrsTemporary in d.entries || ns.key in Temps(ns)
  }

  /** Stores both temporary files and links them. */
  method StoreAndLink(
    dir: Directory, ns: Names, chunks: seq<bytes>, maxSize: Option<nat>, sniff: bool, sidecar: bytes)
    returns (error: Option<StoreError>, linked: bool, attrsLinked: bool, published: bool)
    requires DirOk(dir.d) && NamesOk(ns)
    modifies dir
    ensures Landed(old(dir.d), dir.d, ns, linked, attrsLinked)
    ensures published <==> error.None?
    ensures published ==> attrsLinked && SourceOk(Concat(chunks), maxSize, sniff) && dir.d.entries.Keys !! Temps(ns)
    ensures published ==> Holds(dir.d, ns.key, Concat(chunks)) && Holds(dir.d, ns.attrs, sidecar)
    ensures old(dir.faulted) ==> dir.faulted
    ensures error.Some? ==> dir.faulted || old(TokenTaken(dir.d, ns))
                            || Blames(error.value, Concat(chunks), maxSize, sniff, old(NameTaken(dir.d, ns)))
  {
    ghost var d0 := dir.d;
    var stored, a := StoreSource(dir, ns.temporary, chunks, maxSize, sniff);
    AddedLanded(d0, dir.d, ns, a);
    if stored.Err? { return Some(stored.error), false, false, false; }
    ghost var d1 := dir.d;
    var described, b := StoreSidecar(dir, ns.attrsTemporary, sidecar);
    AddedTwice(d0, d1, dir.d, a, b);
    AddedLanded(d0, dir.d, ns, a + b);
    if described.Err? { return Some(described.error), false, false, false; }
    ghost var d2 := dir.d;
    error, linked, attrsLinked, published := LinkBoth(dir, ns);
    LinkedLanded(d0, d2, dir.d, ns, a + b, linked, attrsLinked);
  }

  /** Publishing: both names appear with the whole content, or nothing has changed. Without a fault or a
      clash of tokens it fails only for the reason its error names; and whatever failed, once the unlinks
      of the cleanup have worked the directory is as before. */
  method Publish(
    dir: Directory, ns: Names, chunks: seq<bytes>, maxSize: Option<nat>, sniff: bool, sidecar: bytes)
    returns (error: Option<StoreError>, ghost published: bool)
    requires DirOk(dir.d) && NamesOk(ns)
    modifies dir
    ensures DirOk(dir.d) && OthersKept(old(dir.d), dir.d, ns)
    ensures error.None? ==> published
    ensures published ==> SourceOk(Concat(chunks), maxSize, sniff)
                          && Published(old(dir.d), dir.d, ns, Concat(chunks), sidecar)
    ensures !published && dir.stubborn !! Temps(ns) + {ns.key, ns.attrs} ==>
              dir.d == old(dir.d) || View(dir.d) == Without(View(old(dir.d)), ns)
    ensures error.Some? ==> dir.faulted || old(TokenTaken(dir.d, ns))
                            || Blames(error.value, Concat(chunks), maxSize, sniff, old(NameTaken(dir.d, ns)))
    ensures old(ns.key in dir.d.entries && dir.d.nodes[dir.d.entries[ns.key]].File?) ==> error == Some(AlreadyExists)
    ensures old(ns.key in dir.d.entries) ==> error.Some? && !published
  {
    published := false;
    if ns.key in dir.d.entries && dir.d.nodes[dir.d.entries[ns.key]].File? { return Some(AlreadyExists), false; }
    ghost var d0 := dir.d;
    var linked, attrsLinked, landed;
    error, linked, attrsLinked, landed := StoreAndLink(dir, ns, chunks, maxSize, sniff, sidecar);
    published := landed;
    ghost var d1 := dir.d;
    if landed {
      PublishedView(d0, d1, ns, Concat(chunks), sidecar);
      var known := dir.Answer();
      if !known { error := Some(State); }
    }
    Cleanup(dir, ns, !landed && linked, !landed && attrsLinked);
    if landed {
      SameDirectory(d1, dir.d, ns);
    } else {
      DroppedView(d0, d1, dir.d, ns, linked, attrsLinked, dir.stubborn !! Temps(ns) + {ns.key, ns.attrs});
    }
  }

  lemma SameDirectory(d1: Dir, d: Dir, ns: Names)
    requires d.nodes == d1.nodes && SameOff(d1.entries, d.entries, Temps(ns)) && d1.entries.Keys !! Temps(ns)
    requires d.entries.Keys <= d1.entries.Keys
    ensures d.entries == d1.entries
  {
    forall n ensures n in d.entries <==> n in d1.entries { }
  }

  /** Deleting: the archive goes first, then its sidecar; nothing else is touched. */
  method Delete(dir: Directory, key: text) returns (error: Option<StoreError>)
    requires DirOk(dir.d)
    modifies dir
    ensures DirOk(dir.d) && SameOff(old(dir.d).entries, dir.d.entries, {key, key + ATTRS_SUFFIX})
    ensures error.Some? && !dir.faulted ==> key !in old(dir.d).entries || !old(dir.d).nodes[old(dir.d).entries[key]].File?
    ensures dir.d.entries.Keys <= old(dir.d).entries.Keys && dir.d.nodes == old(dir.d).nodes
    ensures error.None? ==> key in old(dir.d).entries && key !in dir.d.entries && key + ATTRS_SUFFIX !in dir.d.entries
    ensures key in dir.d.entries ==> dir.d == old(dir.d)
    ensures error == Some(Missing) <==> !old(key in dir.d.entries && dir.d.nodes[dir.d.entries[key]].File?)
    ensures error.Some? ==> error == Some(Missing) || error == Some(State)
  {
    if key !in dir.d.entries || !dir.d.nodes[dir.d.entries[key]].File? { return Some(Missing); }
    var failed := dir.Unlink(key);
    if failed.Some? { return Some(if failed.value.NotFound? then Missing else State); }
    failed := dir.Unlink(key + ATTRS_SUFFIX);
    if failed.Some? && !failed.value.NotFound? { return Some(State); }
    var synced := dir.Answer();
    return if synced then None else Some(State);
  }
}
