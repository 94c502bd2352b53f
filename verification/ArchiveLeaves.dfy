/** Where a resolved tree still holds UIDs: in the values the resolver passes through verbatim. */
module ArchiveLeaves {
  import opened Plist
  import opened Wrappers
  import opened Archive
  import opened ArchiveSemantics
  import opened ArchiveRoundTrip

  /** Chains of UIDs lead from both keys to one string. */
  ghost predicate SameName(objects: seq<Value>, k: Value, l: Value) {
    exists p, q :: Chain(objects, p) && p[0] == k && Chain(objects, q) && q[0] == l && p[|p| - 1] == q[|q| - 1]
  }

  /** No later key leads to the same name. */
  ghost predicate Survives(objects: seq<Value>, keys: seq<Value>, i: nat)
    requires i < |keys|
  {
    forall j | i < j < |keys| :: !SameName(objects, keys[j], keys[i])
  }

  /** What passes through verbatim below `v`, and is not overwritten, holds no UID. */
  ghost predicate LeavesPlain(objects: seq<Value>, v: Value, depth: nat)
    decreases MAX_ARCHIVE_DEPTH + 1 - depth
  {
    depth <= MAX_ARCHIVE_DEPTH ==>
      match v
      case Uid(index) => index < |objects| ==> LeavesPlain(objects, objects[index], depth + 1)
      case Dictionary(d) => (
        match ArrayAt(d, "NS.objects")
        case None => Plain(v)
        case Some(vals) => (
          match ArrayAt(d, "NS.keys")
          case None => forall i | 0 <= i < |vals| :: LeavesPlain(objects, vals[i], depth + 1)
          case Some(keys) =>
            forall i | 0 <= i < |vals| && i < |keys| && Survives(objects, keys, i) ::
              LeavesPlain(objects, vals[i], depth + 1)))
      case _ => Plain(v)
  }

  /** The documented promise that every UID is resolved holds of a resolved value exactly when
      no surviving verbatim value below it holds one. */
  lemma {:induction false} NoUidExactly(objects: seq<Value>, v: Value, depth: nat)
    requires Unarchive(objects, v, depth).Success?
    ensures Plain(Unarchive(objects, v, depth).value) <==> LeavesPlain(objects, v, depth)
    decreases MAX_ARCHIVE_DEPTH + 1 - depth
  {
    match v {
      case Uid(index) => NoUidExactly(objects, objects[index], depth + 1);
      case Dictionary(d) =>
        var vals, keys := ArrayAt(d, "NS.objects"), ArrayAt(d, "NS.keys");
        if vals.Some? {
          var below := depth + 1;
          forall c | Unarchive(objects, c, below).Success?
            ensures Plain(Unarchive(objects, c, below).value) <==> LeavesPlain(objects, c, below)
          {
            NoUidExactly(objects, c, below);
          }
          if keys.Some? {
            NoUidInEntries(objects, keys.value, vals.value, below);
          } else {
            NoUidInItems(objects, vals.value, below);
          }
        }
      case _ =>
    }
  }

  lemma NoUidInItems(objects: seq<Value>, vals: seq<Value>, depth: nat)
    requires UnarchiveItems(objects, vals, depth).Success?
    requires forall c | Unarchive(objects, c, depth).Success? ::
               Plain(Unarchive(objects, c, depth).value) <==> LeavesPlain(objects, c, depth)
    ensures Plain(Array(UnarchiveItems(objects, vals, depth).value))
       <==> forall i | 0 <= i < |vals| :: LeavesPlain(objects, vals[i], depth)
  {
    var items := UnarchiveItems(objects, vals, depth).value;
    ItemsPointwise(objects, vals, depth, items);
    forall i | 0 <= i < |vals| ensures Plain(items[i]) <==> LeavesPlain(objects, vals[i], depth) {
      assert Unarchive(objects, vals[i], depth) == Success(items[i]);
    }
  }

  lemma NoUidInEntries(objects: seq<Value>, keys: seq<Value>, vals: seq<Value>, depth: nat)
    requires |keys| == |vals| && UnarchiveEntries(objects, keys, vals, depth).Success?
    requires forall c | Unarchive(objects, c, depth).Success? ::
               Plain(Unarchive(objects, c, depth).value) <==> LeavesPlain(objects, c, depth)
    ensures Plain(Dictionary(UnarchiveEntries(objects, keys, vals, depth).value))
       <==> forall i | 0 <= i < |vals| && Survives(objects, keys, i) :: LeavesPlain(objects, vals[i], depth)
  {
    var names, trees := EntriesResolve(objects, keys, vals, depth);
    InsertedIsLastWins(names, trees);
    forall i | 0 <= i < |keys|
      ensures Survives(objects, keys, i) <==> LastAt(names, i)
      ensures Plain(trees[i]) <==> LeavesPlain(objects, vals[i], depth)
    {
      SurvivesLast(objects, keys, names, i, depth);
      assert Unarchive(objects, vals[i], depth) == Success(trees[i]);
    }
    PlainByLast(names, trees, Inserted(names, trees));
  }

  lemma SurvivesLast(objects: seq<Value>, keys: seq<Value>, names: seq<string>, i: nat, depth: nat)
    requires |keys| == |names| && i < |keys| && Pointwise(objects, keys, Strings(names), depth)
    ensures Survives(objects, keys, i) <==> LastAt(names, i)
  {
    forall j | i < j < |keys| ensures SameName(objects, keys[j], keys[i]) <==> names[j] == names[i] {
      assert Strings(names)[j] == String(names[j]) && Strings(names)[i] == String(names[i]);
      NamesByChain(objects, keys[j], keys[i], names[j], names[i], depth);
    }
  }

  /** Keys that resolve have one name exactly when chains lead from them to one string. */
  lemma NamesByChain(objects: seq<Value>, k: Value, l: Value, m: string, n: string, depth: nat)
    requires Unarchive(objects, k, depth) == Success(String(m)) && Unarchive(objects, l, depth) == Success(String(n))
    ensures SameName(objects, k, l) <==> m == n
  {
    if SameName(objects, k, l) {
      OneName(objects, k, l, m, n, depth);
    }
    if m == n {
      var p := NameChain(objects, k, m, depth);
      var q := NameChain(objects, l, n, depth);
      SameEnds(objects, p, q, String(m));
    }
  }

  lemma OneName(objects: seq<Value>, k: Value, l: Value, m: string, n: string, depth: nat)
    requires Unarchive(objects, k, depth) == Success(String(m)) && Unarchive(objects, l, depth) == Success(String(n))
    requires SameName(objects, k, l)
    ensures m == n
  {
    var p, q :| Chain(objects, p) && p[0] == k && Chain(objects, q) && q[0] == l && p[|p| - 1] == q[|q| - 1];
    ChainEnds(objects, p, k, m, depth);
    ChainEnds(objects, q, l, n, depth);
  }

  lemma SameEnds(objects: seq<Value>, p: seq<Value>, q: seq<Value>, end: Value)
    requires Chain(objects, p) && Chain(objects, q) && p[|p| - 1] == end == q[|q| - 1]
    ensures SameName(objects, p[0], q[0])
  {
  }

  lemma ChainEnds(objects: seq<Value>, p: seq<Value>, k: Value, m: string, depth: nat)
    requires Chain(objects, p) && p[0] == k && Unarchive(objects, k, depth) == Success(String(m))
    ensures p[|p| - 1] == String(m)
  {
    ChainResolves(objects, p, depth);
  }

  lemma NameChain(objects: seq<Value>, k: Value, m: string, depth: nat) returns (p: seq<Value>)
    requires Unarchive(objects, k, depth) == Success(String(m))
    ensures Chain(objects, p) && p[0] == k && p[|p| - 1] == String(m)
  {
    p := ChainOf(objects, k, depth);
    ChainEnds(objects, p, k, m, depth);
  }

  /** A dictionary holds no UID exactly when no value beside a last occurrence does. */
  lemma PlainByLast(names: seq<string>, trees: seq<Value>, entries: map<string, Value>)
    requires |names| == |trees| && LastWins(names, trees, entries)
    ensures Plain(Dictionary(entries)) <==> forall i | 0 <= i < |names| && LastAt(names, i) :: Plain(trees[i])
  {
    if forall i | 0 <= i < |names| && LastAt(names, i) :: Plain(trees[i]) {
      forall name | name in entries ensures Plain(entries[name]) {
        var i := LastOccurrence(names, name);
        assert Plain(trees[i]);
      }
    }
  }

  // ---------------------------------------------------------------------------
  // The root of an archive
  // ---------------------------------------------------------------------------

  /** The promise as it is documented, of the root: its dictionary holds no UID exactly when no
      surviving verbatim value below the root reference holds one. */
  lemma RootNoUidExactly(root: Value)
    requires UnarchiveRoot(root).Success?
    ensures Plain(Dictionary(UnarchiveRoot(root).value))
       <==> LeavesPlain(Envelope(root).value.0, Envelope(root).value.1, 0)
  {
    NoUidExactly(Envelope(root).value.0, Envelope(root).value.1, 0);
  }

  /** An archive whose root dictionary comes back with a reference in it that could be followed. */
  lemma RootReferenceLeft() returns (root: Value)
    ensures Envelope(root).Success? && |Envelope(root).value.0| == 1
    ensures UnarchiveRoot(root) == Success(map["x" := Array([Uid(0)])])
    ensures !Plain(Dictionary(UnarchiveRoot(root).value))
  {
    var leaf := Array([Uid(0)]);
    var top := Dictionary(map["x" := leaf]);
    root := Dictionary(map["$objects" := Array([Boolean(true)]), "$top" := Dictionary(map["root" := top])]);
    assert Envelope(root) == Success(([Boolean(true)], top));
    assert Unarchive([Boolean(true)], top, 0) == Success(top);
    assert !Plain(leaf.items[0]) && !Plain(leaf);
    assert "x" in top.entries && top.entries["x"] == leaf && !Plain(top);
  }
}
