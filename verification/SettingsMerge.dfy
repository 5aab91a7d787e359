/** Merging a patch into the stored settings: a recursive merge of dictionaries, the patch winning. */
module SettingsMerge {
  import opened Results
  import opened Text

  /** A settings value: a dictionary, or anything else (lists are replaced whole). */
  datatype Setting = Scalar(v: nat) | Group(members: map<text, Setting>)

  type Path = seq<text>

  function Overlaid(base: Setting, patch: Setting): Setting
    decreases patch
  {
    if !base.Group? || !patch.Group? then patch
    else Group(map k | k in base.members.Keys + patch.members.Keys ::
                 if k !in patch.members then base.members[k]
                 else if k !in base.members then patch.members[k]
                 else Overlaid(base.members[k], patch.members[k]))
  }

  /** The loop over the items of the patch, in any order. */
  method DeepMerge(base: Setting, patch: Setting) returns (r: Setting)
    requires base.Group? && patch.Group?
    ensures r == Overlaid(base, patch)
    decreases patch
  {
    var result := base.members;
    var todo := patch.members.Keys;
    while todo != {}
      invariant todo <= patch.members.Keys
      invariant result.Keys == base.members.Keys + (patch.members.Keys - todo)
      invariant forall k :: k in base.members && (k in todo || k !in patch.members) ==> result[k] == base.members[k]
      invariant forall k :: k in patch.members && k !in todo ==>
        result[k] == if k in base.members then Overlaid(base.members[k], patch.members[k]) else patch.members[k]
      decreases todo
    {
      var k :| k in todo;
      var value := patch.members[k];
      if k in result && result[k].Group? && value.Group? {
        var inner := DeepMerge(result[k], value);
        result := result[k := inner];
      } else {
        result := result[k := value];
      }
      todo := todo - {k};
    }
    r := Group(result);
  }

  // What stands where

  function Get(s: Setting, p: Path): Option<Setting>
    decreases |p|
  {
    if p == [] then Some(s)
    else if s.Group? && p[0] in s.members then Get(s.members[p[0]], p[1..])
    else None
  }

  predicate ScalarAt(s: Setting, p: Path, v: nat) { Get(s, p) == Some(Scalar(v)) }

  predicate GroupAt(s: Setting, p: Path) { Get(s, p).Some? && Get(s, p).value.Group? }

  predicate Stops(s: Setting, p: Path) { Get(s, p).Some? && Get(s, p).value.Scalar? }

  /** The patch puts something that is no dictionary at the path or above it. */
  ghost predicate Cuts(patch: Setting, p: Path) { exists k :: 0 <= k <= |p| && Stops(patch, p[..k]) }

  ghost predicate Touches(patch: Setting, p: Path) { Cuts(patch, p) || Get(patch, p).Some? }

  lemma CutsUnfold(patch: Setting, p: Path)
    ensures Cuts(patch, p) <==>
            patch.Scalar? || (p != [] && p[0] in patch.members && Cuts(patch.members[p[0]], p[1..]))
  {
    if patch.Scalar? {
      assert Stops(patch, p[..0]);
    } else {
      if k :| 0 <= k <= |p| && Stops(patch, p[..k]) {
        assert p[..k][1..] == p[1..][..k - 1];
        assert Stops(patch.members[p[0]], p[1..][..k - 1]);
      }
      if p != [] && p[0] in patch.members && Cuts(patch.members[p[0]], p[1..]) {
        var k :| 0 <= k <= |p[1..]| && Stops(patch.members[p[0]], p[1..][..k]);
        assert p[..k + 1][1..] == p[1..][..k];
        assert Stops(patch, p[..k + 1]);
      }
    }
  }

  /** The merge path by path: the patch wins wherever it says something, and everything else stays. */
  lemma {:induction false} MergeMeans(base: Setting, patch: Setting, p: Path)
    ensures forall v :: ScalarAt(Overlaid(base, patch), p, v) <==>
                        ScalarAt(patch, p, v) || (ScalarAt(base, p, v) && !Touches(patch, p))
    ensures GroupAt(Overlaid(base, patch), p) <==> GroupAt(patch, p) || (GroupAt(base, p) && !Cuts(patch, p))
    decreases |p|
  {
    CutsUnfold(patch, p);
    if p != [] && base.Group? && patch.Group? && p[0] in base.members && p[0] in patch.members {
      MergeMeans(base.members[p[0]], patch.members[p[0]], p[1..]);
      assert Get(Overlaid(base, patch), p) == Get(Overlaid(base.members[p[0]], patch.members[p[0]]), p[1..]);
      assert Get(base, p) == Get(base.members[p[0]], p[1..]) && Get(patch, p) == Get(patch.members[p[0]], p[1..]);
      forall v ensures ScalarAt(Overlaid(base, patch), p, v) <==>
                       ScalarAt(Overlaid(base.members[p[0]], patch.members[p[0]]), p[1..], v) {}
    }
  }

  // Many patches

  function OverlaidAll(base: Setting, patches: seq<Setting>): Setting {
    if patches == [] then base else Overlaid(OverlaidAll(base, patches[..|patches| - 1]), patches[|patches| - 1])
  }

  ghost predicate TouchedFrom(patches: seq<Setting>, j: nat, p: Path) {
    exists k :: j <= k < |patches| && Touches(patches[k], p)
  }

  /** Some patch puts the value there and no later one says anything about the path. */
  ghost predicate LastWord(patches: seq<Setting>, p: Path, v: nat) {
    exists j :: 0 <= j < |patches| && ScalarAt(patches[j], p, v) && !TouchedFrom(patches, j + 1, p)
  }

  lemma TouchedLast(patches: seq<Setting>, j: nat, p: Path)
    requires patches != [] && j < |patches|
    ensures var n := |patches| - 1;
            TouchedFrom(patches, j, p) <==> TouchedFrom(patches[..n], j, p) || Touches(patches[n], p)
  {
    var n := |patches| - 1;
    if TouchedFrom(patches, j, p) && !Touches(patches[n], p) {
      var k :| j <= k < |patches| && Touches(patches[k], p);
      assert Touches(patches[..n][k], p);
    }
    if TouchedFrom(patches[..n], j, p) {
      var k :| j <= k < n && Touches(patches[..n][k], p);
      assert Touches(patches[k], p);
    }
  }

  lemma LastWordUnfolds(patches: seq<Setting>, p: Path, v: nat)
    requires patches != []
    ensures var n := |patches| - 1;
            LastWord(patches, p, v) <==>
            ScalarAt(patches[n], p, v) || (LastWord(patches[..n], p, v) && !Touches(patches[n], p))
  {
    var n := |patches| - 1;
    if LastWord(patches, p, v) && !ScalarAt(patches[n], p, v) {
      var j :| 0 <= j < |patches| && ScalarAt(patches[j], p, v) && !TouchedFrom(patches, j + 1, p);
      TouchedLast(patches, j + 1, p);
      assert ScalarAt(patches[..n][j], p, v);
    }
    if ScalarAt(patches[n], p, v) { assert !TouchedFrom(patches, n + 1, p); }
    if LastWord(patches[..n], p, v) && !Touches(patches[n], p) {
      var j :| 0 <= j < n && ScalarAt(patches[..n][j], p, v) && !TouchedFrom(patches[..n], j + 1, p);
      TouchedLast(patches, j + 1, p);
      assert ScalarAt(patches[j], p, v);
    }
  }

  /** After any patches a value is the last one put there, or the first one if no patch touched the path. */
  lemma {:induction false} LastWordWins(base: Setting, patches: seq<Setting>, p: Path, v: nat)
    ensures ScalarAt(OverlaidAll(base, patches), p, v) <==>
            LastWord(patches, p, v) || (ScalarAt(base, p, v) && !TouchedFrom(patches, 0, p))
    decreases |patches|
  {
    if patches != [] {
      var n := |patches| - 1;
      LastWordWins(base, patches[..n], p, v);
      MergeMeans(OverlaidAll(base, patches[..n]), patches[n], p);
      LastWordUnfolds(patches, p, v);
      TouchedLast(patches, 0, p);
    }
  }
}
