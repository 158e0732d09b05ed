/** JSON values and JSON Merge Patch (section 2 of RFC 7396). */
module Json {
  import opened Common

  /** Object member names: the ones the handlers mention, and any other. */
  datatype Key = Spec | Name | Vrf | Vrfs | Interfaces | Protocols | Bgp | TrafficPolicy | Other(text: string)

  datatype Json = Null | Bool(b: bool) | Num(n: int) | Str(s: string) | Arr(items: seq<Json>) | Obj(fields: map<Key, Json>)

  function Fields(j: Json): map<Key, Json> {
    if j.Obj? then j.fields else map[]
  }

  function MergePatch(target: Json, patch: Json): Json
    decreases patch
  {
    if !patch.Obj? then patch
    else
      var t := Fields(target);
      Obj(map k | k in t.Keys + patch.fields.Keys && (k in patch.fields ==> !patch.fields[k].Null?) ::
            if k in patch.fields then MergePatch(if k in t then t[k] else Null, patch.fields[k]) else t[k])
  }

  /** One member of a merged object. */
  lemma MergeAt(target: Json, patch: map<Key, Json>, k: Key)
    ensures MergePatch(target, Obj(patch)).Obj?
    ensures Get(MergePatch(target, Obj(patch)).fields, k) ==
            if k !in patch then Get(Fields(target), k)
            else if patch[k].Null? then None
            else Some(MergePatch(if k in Fields(target) then Fields(target)[k] else Null, patch[k]))
  {
  }

  lemma SameMembers(a: map<Key, Json>, b: map<Key, Json>)
    requires forall k :: Get(a, k) == Get(b, k)
    ensures a == b
  {
    assert forall k :: k in a <==> Get(a, k) != None;
    assert forall k :: k in b <==> Get(b, k) != None;
    assert a.Keys == b.Keys;
    forall k | k in a ensures a[k] == b[k] {
      assert Get(a, k) == Get(b, k);
    }
  }

  /** No object member, at any depth outside arrays, is null. */
  predicate NullFree(j: Json) {
    j.Obj? ==> forall k | k in j.fields :: !j.fields[k].Null? && NullFree(j.fields[k])
  }

  // ---------------------------------------------------------------- merging a value into itself

  /** Writing back what was read changes nothing if and only if no member is null. */
  lemma {:induction false} MergeSelfIff(j: Json)
    ensures MergePatch(j, j) == j <==> NullFree(j)
    decreases j
  {
    if j.Obj? {
      var m := MergePatch(j, j).fields;
      forall k | k in j.fields ensures (k in m && m[k] == j.fields[k]) <==> (!j.fields[k].Null? && NullFree(j.fields[k])) {
        MergeSelfIff(j.fields[k]);
      }
      if MergePatch(j, j) == j {
        assert m == j.fields;
      }
      if NullFree(j) {
        assert m.Keys == j.fields.Keys;
        assert m == j.fields;
      }
    }
  }

  /** Writing back what was read always leaves something without null members. */
  lemma {:induction false} MergeSelfNullFree(j: Json)
    requires j.Obj?
    ensures NullFree(MergePatch(j, j))
    decreases j
  {
    var m := MergePatch(j, j).fields;
    forall k | k in m ensures !m[k].Null? && NullFree(m[k]) {
      var child := j.fields[k];
      assert m[k] == MergePatch(child, child);
      if child.Obj? {
        MergeSelfNullFree(child);
      }
    }
  }

  /** Applying the same patch twice is applying it once. */
  lemma {:induction false} MergeIdempotent(target: Json, patch: Json)
    ensures MergePatch(MergePatch(target, patch), patch) == MergePatch(target, patch)
    decreases patch
  {
    if patch.Obj? {
      var once := MergePatch(target, patch);
      var twice := MergePatch(once, patch);
      assert once.fields.Keys == twice.fields.Keys;
      forall k | k in once.fields ensures once.fields[k] == twice.fields[k] {
        if k in patch.fields {
          MergeIdempotent(if k in Fields(target) then Fields(target)[k] else Null, patch.fields[k]);
        }
      }
    }
  }

  // ---------------------------------------------------------------- paths

  function Member(j: Json, k: Key): Option<Json> {
    Get(Fields(j), k)
  }

  function At(j: Json, path: seq<Key>): Option<Json> {
    if path == [] then Some(j)
    else
      match Member(j, path[0])
      case None => None
      case Some(child) => At(child, path[1..])
  }

  /** The patch has nothing to say about the path: it leaves the patch at a member of one of its objects. */
  predicate Avoids(patch: Json, path: seq<Key>) {
    && patch.Obj?
    && path != []
    && (path[0] in patch.fields ==> Avoids(patch.fields[path[0]], path[1..]))
  }

  /** A patch changes nothing at the paths it avoids. */
  lemma {:induction false} MergeFrame(target: Json, patch: Json, path: seq<Key>)
    requires Avoids(patch, path)
    ensures At(MergePatch(target, patch), path) == At(target, path)
    decreases patch
  {
    var k := path[0];
    if k in patch.fields {
      MergeFrame(if k in Fields(target) then Fields(target)[k] else Null, patch.fields[k], path[1..]);
      if k !in Fields(target) {
        AtNull(path[1..]);
      }
    }
  }

  lemma AtNull(path: seq<Key>)
    requires path != []
    ensures At(Null, path) == None
  {
    assert Member(Null, path[0]) == None;
  }

  /** An empty object in a patch is no deletion: it leaves an object as it is, and turns
      anything else into the empty object. */
  lemma EmptyObjectPatch(target: Json)
    ensures MergePatch(target, Obj(map[])) == target <==> target.Obj?
  {
    var m := MergePatch(target, Obj(map[]));
    assert m.fields == Fields(target);
  }
}
