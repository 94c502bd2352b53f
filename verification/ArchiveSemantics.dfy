/**
  What the resolver computes: the finite tree a value unfolds to, stated without the
  depth budget, and the shape of the object graph that decides success.
 */
module ArchiveSemantics {
  import opened Archive
  import opened Plist
  import opened Wrappers

  // ---------------------------------------------------------------------------
  // Unfolding a value through the table
  // ---------------------------------------------------------------------------

  /** The name at `i` does not occur again. */
  ghost predicate LastAt(names: seq<string>, i: nat)
    requires i < |names|
  {
    forall j | i < j < |names| :: names[j] != names[i]
  }

  /** `entries` holds, for every name, the tree beside its last occurrence. */
  ghost predicate LastWins(names: seq<string>, trees: seq<Value>, entries: map<string, Value>)
    requires |names| == |trees|
  {
    && (forall name :: name in entries <==> name in names)
    && (forall i | 0 <= i < |names| && LastAt(names, i) ::
          names[i] in entries && entries[names[i]] == trees[i])
  }

  /** `v` unfolds through the table to the tree `t` along at most `h` indirections.
      Nothing here mentions errors or an order of evaluation. */
  ghost predicate Unfolds(objects: seq<Value>, v: Value, t: Value, h: nat)
    decreases h, 0
  {
    match v
    case Uid(index) =>
      h > 0 && index < |objects| && Unfolds(objects, objects[index], t, h - 1)
    case Dictionary(d) => (
      match ArrayAt(d, "NS.objects")
      case None => t == v
      case Some(vals) => (
        match ArrayAt(d, "NS.keys")
        case None =>
          && t.Array?
          && |t.items| == |vals|
          && (vals == [] || (h > 0 && AllUnfold(objects, vals, t.items, h - 1)))
        case Some(keys) =>
          && t.Dictionary?
          && |keys| == |vals|
          && (if h == 0 then keys == [] && t.entries == map[]
              else exists names, trees :: EntriesUnfold(objects, keys, vals, names, trees, h - 1)
                                       && LastWins(names, trees, t.entries))))
    case _ => t == v
  }

  ghost predicate AllUnfold(objects: seq<Value>, vals: seq<Value>, trees: seq<Value>, h: nat)
    decreases h, 1
  {
    && |trees| == |vals|
    && forall i | 0 <= i < |vals| :: Unfolds(objects, vals[i], trees[i], h)
  }

  ghost predicate EntriesUnfold(objects: seq<Value>, keys: seq<Value>, vals: seq<Value>,
                                names: seq<string>, trees: seq<Value>, h: nat)
    decreases h, 2
  {
    && |names| == |keys|
    && |trees| == |vals| == |keys|
    && (forall i | 0 <= i < |keys| :: Unfolds(objects, keys[i], String(names[i]), h))
    && AllUnfold(objects, vals, trees, h)
  }

  /** The map built by inserting the pairs in order. */
  ghost function Inserted(names: seq<string>, trees: seq<Value>): map<string, Value>
    requires |names| == |trees|
  {
    if names == [] then map[]
    else
      var n := |names| - 1;
      Inserted(names[..n], trees[..n])[names[n] := trees[n]]
  }

  /** Inserting in order is the one map in which the last occurrence wins. */
  lemma InsertedIsLastWins(names: seq<string>, trees: seq<Value>)
    requires |names| == |trees|
    ensures LastWins(names, trees, Inserted(names, trees))
  {
    PrefixIsLastWins(names, trees, |names|);
    assert names[..|names|] == names && trees[..|trees|] == trees;
  }

  lemma {:induction false} PrefixIsLastWins(names: seq<string>, trees: seq<Value>, n: nat)
    requires n <= |names| == |trees|
    ensures LastWins(names[..n], trees[..n], Inserted(names[..n], trees[..n]))
    decreases n
  {
    if n > 0 {
      var m := n - 1;
      assert names[..n] == names[..m] + [names[m]] && trees[..n] == trees[..m] + [trees[m]];
      PrefixIsLastWins(names, trees, m);
      InsertedOneMore(names[..m], trees[..m], names[m], trees[m]);
    }
  }

  lemma InsertedOneMore(names: seq<string>, trees: seq<Value>, name: string, tree: Value)
    requires |names| == |trees| && LastWins(names, trees, Inserted(names, trees))
    ensures LastWins(names + [name], trees + [tree], Inserted(names + [name], trees + [tree]))
  {
    assert (names + [name])[..|names|] == names && (trees + [tree])[..|trees|] == trees;
    OneMoreWins(names, trees, Inserted(names, trees), name, tree);
  }

  lemma OneMoreWins(names: seq<string>, trees: seq<Value>, entries: map<string, Value>, name: string, tree: Value)
    requires |names| == |trees| && LastWins(names, trees, entries)
    ensures LastWins(names + [name], trees + [tree], entries[name := tree])
  {
    forall i | 0 <= i < |names| && LastAt(names + [name], i)
      ensures names[i] in entries && entries[names[i]] == trees[i] && names[i] != name
    {
      assert (names + [name])[|names|] != names[i];
      assert LastAt(names, i) by {
        forall j | i < j < |names| ensures names[j] != names[i] {
          assert (names + [name])[j] == names[j];
        }
      }
    }
  }

  /** Some occurrence of a member of `names` is its last. */
  lemma {:induction false} LastOccurrence(names: seq<string>, name: string) returns (i: nat)
    requires name in names
    ensures i < |names| && names[i] == name && LastAt(names, i)
  {
    var n := |names| - 1;
    if names[n] == name {
      i := n;
    } else {
      assert names == names[..n] + [names[n]];
      i := LastOccurrence(names[..n], name);
      forall j | i < j < |names| ensures names[j] != names[i] {
        if j < n { assert names[..n][j] == names[j]; }
      }
    }
  }

  lemma LastWinsUnique(names: seq<string>, trees: seq<Value>, a: map<string, Value>, b: map<string, Value>)
    requires |names| == |trees|
    requires LastWins(names, trees, a) && LastWins(names, trees, b)
    ensures a == b
  {
    forall name | name in a ensures name in b && a[name] == b[name] {
      var i := LastOccurrence(names, name);
    }
  }

  // ---------------------------------------------------------------------------
  // The loops, item by item
  // ---------------------------------------------------------------------------

  /** Every item resolves, to the item beside it. */
  ghost predicate Pointwise(objects: seq<Value>, vals: seq<Value>, trees: seq<Value>, depth: nat) {
    && |trees| == |vals|
    && forall i | 0 <= i < |vals| :: Unarchive(objects, vals[i], depth) == Success(trees[i])
  }

  lemma {:induction false} ItemsPointwise(objects: seq<Value>, vals: seq<Value>, depth: nat, out: seq<Value>)
    ensures UnarchiveItems(objects, vals, depth) == Success(out) <==> Pointwise(objects, vals, out, depth)
    decreases |vals|
  {
    if vals != [] {
      var n := |vals| - 1;
      if UnarchiveItems(objects, vals, depth) == Success(out) {
        assert out == out[..n] + [out[n]] && |out| == n + 1 by {
          var prefix := UnarchiveItems(objects, vals[..n], depth);
          ItemsPointwise(objects, vals[..n], depth, prefix.value);
        }
        var prefix := UnarchiveItems(objects, vals[..n], depth).value;
        assert prefix == out[..n];
        ItemsPointwise(objects, vals[..n], depth, out[..n]);
        forall i | 0 <= i < |vals| ensures Unarchive(objects, vals[i], depth) == Success(out[i]) {
          if i < n { assert vals[..n][i] == vals[i]; }
        }
      }
      if Pointwise(objects, vals, out, depth) {
        assert Pointwise(objects, vals[..n], out[..n], depth);
        ItemsPointwise(objects, vals[..n], depth, out[..n]);
        assert out == out[..n] + [out[n]];
      }
    }
  }

  ghost function Strings(names: seq<string>): (r: seq<Value>)
    ensures |r| == |names| && forall i | 0 <= i < |names| :: r[i] == String(names[i])
  {
    seq(|names|, i requires 0 <= i < |names| => String(names[i]))
  }

  /** When the entries resolve, every key resolves to a name and every value to a tree,
      and the result is the insertion of the pairs. */
  lemma {:induction false} EntriesResolve(objects: seq<Value>, keys: seq<Value>, vals: seq<Value>, depth: nat)
    returns (names: seq<string>, trees: seq<Value>)
    requires |keys| == |vals|
    requires UnarchiveEntries(objects, keys, vals, depth).Success?
    ensures |names| == |trees| == |keys|
    ensures Pointwise(objects, keys, Strings(names), depth)
    ensures Pointwise(objects, vals, trees, depth)
    ensures UnarchiveEntries(objects, keys, vals, depth).value == Inserted(names, trees)
    decreases |keys|
  {
    if keys == [] {
      names, trees := [], [];
    } else {
      var n := |keys| - 1;
      var names', trees' := EntriesResolve(objects, keys[..n], vals[..n], depth);
      names := names' + [Unarchive(objects, keys[n], depth).value.text];
      trees := trees' + [Unarchive(objects, vals[n], depth).value];
      assert names[..n] == names' && trees[..n] == trees';
      forall i | 0 <= i < |keys|
        ensures Unarchive(objects, keys[i], depth) == Success(String(names[i]))
        ensures Unarchive(objects, vals[i], depth) == Success(trees[i])
      {
        if i < n {
          assert keys[..n][i] == keys[i] && vals[..n][i] == vals[i];
          assert Strings(names')[i] == String(names'[i]);
        }
      }
    }
  }

  /** When every key resolves to a name and every value to a tree, the entries resolve. */
  lemma {:induction false} ResolvedEntries(objects: seq<Value>, keys: seq<Value>, vals: seq<Value>,
                                           names: seq<string>, trees: seq<Value>, depth: nat)
    requires |keys| == |vals| == |names| == |trees|
    requires Pointwise(objects, keys, Strings(names), depth)
    requires Pointwise(objects, vals, trees, depth)
    ensures UnarchiveEntries(objects, keys, vals, depth) == Success(Inserted(names, trees))
    decreases |keys|
  {
    if keys != [] {
      var n := |keys| - 1;
      assert Strings(names)[n] == String(names[n]);
      ResolvedEntries(objects, keys[..n], vals[..n], names[..n], trees[..n], depth);
    }
  }

  // ---------------------------------------------------------------------------
  // Exact semantics
  // ---------------------------------------------------------------------------

  /** The resolver succeeds with `t` at `depth` exactly when the value unfolds to `t`
      within what is left of the budget. */
  lemma {:induction false} UnarchiveExact(objects: seq<Value>, v: Value, depth: nat, t: Value)
    ensures Unarchive(objects, v, depth) == Success(t)
       <==> (depth <= 64 && Unfolds(objects, v, t, 64 - depth))
    decreases MAX_ARCHIVE_DEPTH + 1 - depth
  {
    if depth <= MAX_ARCHIVE_DEPTH {
      match v {
        case Uid(index) =>
          if index < |objects| {
            UnarchiveExact(objects, objects[index], depth + 1, t);
          }
        case Dictionary(_) => DictionaryExact(objects, v, depth, t);
        case _ =>
      }
    }
  }

  lemma {:induction false} DictionaryExact(objects: seq<Value>, v: Value, depth: nat, t: Value)
    requires depth <= MAX_ARCHIVE_DEPTH && v.Dictionary?
    ensures Unarchive(objects, v, depth) == Success(t) <==> Unfolds(objects, v, t, MAX_ARCHIVE_DEPTH - depth)
    decreases MAX_ARCHIVE_DEPTH + 1 - depth, 2
  {
    var vals, keys := ArrayAt(v.entries, "NS.objects"), ArrayAt(v.entries, "NS.keys");
    if vals.Some? && keys.None? {
      ItemsExact(objects, vals.value, depth, t);
    } else if vals.Some? && |keys.value| == |vals.value| {
      EntriesExact(objects, keys.value, vals.value, depth, t);
    }
  }

  lemma {:induction false} ItemsExact(objects: seq<Value>, vals: seq<Value>, depth: nat, t: Value)
    requires depth <= MAX_ARCHIVE_DEPTH
    ensures (t.Array? && UnarchiveItems(objects, vals, depth + 1) == Success(t.items))
       <==> (&& t.Array? && |t.items| == |vals|
             && (vals == [] || (&& depth < MAX_ARCHIVE_DEPTH
                                && AllUnfold(objects, vals, t.items, MAX_ARCHIVE_DEPTH - depth - 1))))
    decreases MAX_ARCHIVE_DEPTH + 1 - depth, 0
  {
    if t.Array? {
      ItemsPointwise(objects, vals, depth + 1, t.items);
      if |t.items| == |vals| {
        forall i | 0 <= i < |vals|
          ensures Unarchive(objects, vals[i], depth + 1) == Success(t.items[i])
             <==> (&& depth < MAX_ARCHIVE_DEPTH
                   && Unfolds(objects, vals[i], t.items[i], MAX_ARCHIVE_DEPTH - depth - 1))
        {
          UnarchiveExact(objects, vals[i], depth + 1, t.items[i]);
        }
        if vals != [] && depth == MAX_ARCHIVE_DEPTH {
          assert Unarchive(objects, vals[0], depth + 1).Failure?;
        }
      }
    }
  }

  lemma {:induction false} EntriesExact(objects: seq<Value>, keys: seq<Value>, vals: seq<Value>, depth: nat, t: Value)
    requires depth <= MAX_ARCHIVE_DEPTH && |keys| == |vals|
    ensures (t.Dictionary? && UnarchiveEntries(objects, keys, vals, depth + 1) == Success(t.entries))
       <==> (&& t.Dictionary?
             && (if depth == MAX_ARCHIVE_DEPTH then keys == [] && t.entries == map[]
                 else exists names, trees ::
                        && EntriesUnfold(objects, keys, vals, names, trees, MAX_ARCHIVE_DEPTH - depth - 1)
                        && LastWins(names, trees, t.entries)))
    decreases MAX_ARCHIVE_DEPTH + 1 - depth, 1
  {
    if depth < MAX_ARCHIVE_DEPTH && t.Dictionary? {
      if UnarchiveEntries(objects, keys, vals, depth + 1) == Success(t.entries) {
        var names, trees := ResolvedEntriesUnfold(objects, keys, vals, depth);
        InsertedIsLastWins(names, trees);
      }
      forall names, trees | && EntriesUnfold(objects, keys, vals, names, trees, MAX_ARCHIVE_DEPTH - depth - 1)
                            && LastWins(names, trees, t.entries)
        ensures UnarchiveEntries(objects, keys, vals, depth + 1) == Success(t.entries)
      {
        UnfoldedEntriesResolve(objects, keys, vals, names, trees, depth);
        InsertedIsLastWins(names, trees);
        LastWinsUnique(names, trees, Inserted(names, trees), t.entries);
      }
    }
  }

  lemma {:induction false} ResolvedEntriesUnfold(objects: seq<Value>, keys: seq<Value>, vals: seq<Value>, depth: nat)
    returns (names: seq<string>, trees: seq<Value>)
    requires depth < MAX_ARCHIVE_DEPTH && |keys| == |vals|
    requires UnarchiveEntries(objects, keys, vals, depth + 1).Success?
    ensures EntriesUnfold(objects, keys, vals, names, trees, MAX_ARCHIVE_DEPTH - depth - 1)
    ensures UnarchiveEntries(objects, keys, vals, depth + 1).value == Inserted(names, trees)
    decreases MAX_ARCHIVE_DEPTH + 1 - depth, 0
  {
    names, trees := EntriesResolve(objects, keys, vals, depth + 1);
    forall i | 0 <= i < |keys|
      ensures Unfolds(objects, keys[i], String(names[i]), MAX_ARCHIVE_DEPTH - depth - 1)
      ensures Unfolds(objects, vals[i], trees[i], MAX_ARCHIVE_DEPTH - depth - 1)
    {
      assert Strings(names)[i] == String(names[i]);
      UnarchiveExact(objects, keys[i], depth + 1, String(names[i]));
      UnarchiveExact(objects, vals[i], depth + 1, trees[i]);
    }
  }

  lemma {:induction false} UnfoldedEntriesResolve(objects: seq<Value>, keys: seq<Value>, vals: seq<Value>,
                                                  names: seq<string>, trees: seq<Value>, depth: nat)
    requires depth < MAX_ARCHIVE_DEPTH && |keys| == |vals|
    requires EntriesUnfold(objects, keys, vals, names, trees, MAX_ARCHIVE_DEPTH - depth - 1)
    ensures UnarchiveEntries(objects, keys, vals, depth + 1) == Success(Inserted(names, trees))
    decreases MAX_ARCHIVE_DEPTH + 1 - depth, 0
  {
    forall i | 0 <= i < |keys|
      ensures Unarchive(objects, keys[i], depth + 1) == Success(Strings(names)[i])
      ensures Unarchive(objects, vals[i], depth + 1) == Success(trees[i])
    {
      UnarchiveExact(objects, keys[i], depth + 1, String(names[i]));
      UnarchiveExact(objects, vals[i], depth + 1, trees[i]);
    }
    ResolvedEntries(objects, keys, vals, names, trees, depth + 1);
  }

  /** A value that resolves at some depth resolves to the same tree at every smaller one. */
  lemma {:induction false} ShallowerAgrees(objects: seq<Value>, v: Value, depth: nat, shallower: nat)
    requires shallower <= depth
    requires Unarchive(objects, v, depth).Success?
    ensures Unarchive(objects, v, shallower) == Unarchive(objects, v, depth)
    decreases MAX_ARCHIVE_DEPTH + 1 - depth
  {
    match v {
      case Uid(index) =>
        ShallowerAgrees(objects, objects[index], depth + 1, shallower + 1);
      case Dictionary(d) =>
        var vals, keys := ArrayAt(d, "NS.objects"), ArrayAt(d, "NS.keys");
        if vals.Some? {
          var below, above := depth + 1, shallower + 1;
          forall c | Unarchive(objects, c, below).Success?
            ensures Unarchive(objects, c, above) == Unarchive(objects, c, below)
          {
            ShallowerAgrees(objects, c, below, above);
          }
          if keys.Some? {
            EntriesAgree(objects, keys.value, vals.value, below, above);
          } else {
            ItemsAgree(objects, vals.value, below, above);
          }
        }
      case _ =>
    }
  }

  lemma {:induction false} EntriesAgree(objects: seq<Value>, keys: seq<Value>, vals: seq<Value>,
                                        depth: nat, shallower: nat)
    requires |keys| == |vals|
    requires UnarchiveEntries(objects, keys, vals, depth).Success?
    requires forall c | Unarchive(objects, c, depth).Success? ::
               Unarchive(objects, c, shallower) == Unarchive(objects, c, depth)
    ensures UnarchiveEntries(objects, keys, vals, shallower) == UnarchiveEntries(objects, keys, vals, depth)
    decreases |keys|
  {
    if keys != [] {
      var n := |keys| - 1;
      EntriesAgree(objects, keys[..n], vals[..n], depth, shallower);
    }
  }

  lemma {:induction false} ItemsAgree(objects: seq<Value>, vals: seq<Value>, depth: nat, shallower: nat)
    requires UnarchiveItems(objects, vals, depth).Success?
    requires forall c | Unarchive(objects, c, depth).Success? ::
               Unarchive(objects, c, shallower) == Unarchive(objects, c, depth)
    ensures UnarchiveItems(objects, vals, shallower) == UnarchiveItems(objects, vals, depth)
    decreases |vals|
  {
    if vals != [] {
      ItemsAgree(objects, vals[..|vals| - 1], depth, shallower);
    }
  }

  // ---------------------------------------------------------------------------
  // The object graph
  // ---------------------------------------------------------------------------

  /** The values the resolver visits directly from `v`. */
  ghost function Children(objects: seq<Value>, v: Value): seq<Value> {
    match v
    case Uid(index) => if index < |objects| then [objects[index]] else []
    case Dictionary(d) => (
      match ArrayAt(d, "NS.objects")
      case None => []
      case Some(vals) => (
        match ArrayAt(d, "NS.keys")
        case None => vals
        case Some(keys) => if |keys| == |vals| then keys + vals else []))
    case _ => []
  }

  /** A walk through the object graph, each value a child of the one before. */
  ghost predicate Path(objects: seq<Value>, p: seq<Value>) {
    && |p| > 0
    && forall i | 0 < i < |p| :: p[i] in Children(objects, p[i - 1])
  }

  /** A chain of UIDs that ends at a string. */
  ghost predicate Chain(objects: seq<Value>, p: seq<Value>) {
    && Path(objects, p)
    && (forall i | 0 <= i < |p| - 1 :: p[i].Uid?)
    && p[|p| - 1].String?
  }

  ghost predicate LeadsToString(objects: seq<Value>, v: Value) {
    exists p :: Chain(objects, p) && p[0] == v
  }

  /** What one node must satisfy on its own: its UID is in range, its keys and values
      are as many, and every key leads to a string. */
  ghost predicate NodeOk(objects: seq<Value>, v: Value) {
    match v
    case Uid(index) => index < |objects|
    case Dictionary(d) => (
      match ArrayAt(d, "NS.objects")
      case None => true
      case Some(vals) => (
        match ArrayAt(d, "NS.keys")
        case None => true
        case Some(keys) =>
          && |keys| == |vals|
          && forall k | k in keys :: LeadsToString(objects, k)))
    case _ => true
  }

  ghost predicate WalkFrom(objects: seq<Value>, v: Value, p: seq<Value>) {
    Path(objects, p) && p[0] == v
  }

  /** Every walk from `v` is at most `bound` steps long and ends at a sound node. */
  ghost predicate WalksOk(objects: seq<Value>, v: Value, bound: int) {
    forall p | WalkFrom(objects, v, p) :: |p| - 1 <= bound && NodeOk(objects, p[|p| - 1])
  }

  /** A node that resolves is sound, and its children resolve one level down. */
  lemma ResolvedNode(objects: seq<Value>, v: Value, depth: nat)
    requires Unarchive(objects, v, depth).Success?
    ensures depth <= MAX_ARCHIVE_DEPTH
    ensures NodeOk(objects, v)
    ensures forall c | c in Children(objects, v) :: Unarchive(objects, c, depth + 1).Success?
  {
    if v.Dictionary? {
      var vals, keys := ArrayAt(v.entries, "NS.objects"), ArrayAt(v.entries, "NS.keys");
      if vals.Some? && keys.Some? {
        var names, trees := EntriesResolve(objects, keys.value, vals.value, depth + 1);
        forall k | k in keys.value ensures LeadsToString(objects, k) {
          var i :| 0 <= i < |keys.value| && keys.value[i] == k;
          assert Strings(names)[i] == String(names[i]);
          var p := ChainOf(objects, k, depth + 1);
        }
        forall c | c in Children(objects, v) ensures Unarchive(objects, c, depth + 1).Success? {
          if c in keys.value {
            var i :| 0 <= i < |keys.value| && keys.value[i] == c;
          } else {
            var i :| 0 <= i < |vals.value| && vals.value[i] == c;
          }
        }
      } else if vals.Some? {
        ItemsPointwise(objects, vals.value, depth + 1, UnarchiveItems(objects, vals.value, depth + 1).value);
      }
    }
  }

  /** A value that resolves to a string does so along a chain of UIDs. */
  lemma {:induction false} ChainOf(objects: seq<Value>, v: Value, depth: nat) returns (p: seq<Value>)
    requires Unarchive(objects, v, depth).Success? && Unarchive(objects, v, depth).value.String?
    ensures Chain(objects, p) && p[0] == v
    decreases MAX_ARCHIVE_DEPTH + 1 - depth
  {
    if v.Uid? {
      var q := ChainOf(objects, objects[v.index], depth + 1);
      p := [v] + q;
    } else {
      p := [v];
    }
  }

  /** At the end of a chain waits the string the value resolves to, if it resolves. */
  lemma {:induction false} ChainResolves(objects: seq<Value>, p: seq<Value>, depth: nat)
    requires Chain(objects, p)
    requires Unarchive(objects, p[0], depth).Success?
    ensures Unarchive(objects, p[0], depth).value == p[|p| - 1]
    decreases |p|
  {
    if |p| > 1 {
      assert p[1] in Children(objects, p[0]);
      ChainResolves(objects, p[1..], depth + 1);
    }
  }

  /** A node that is sound and whose children all resolve one level down resolves. */
  lemma NodeResolves(objects: seq<Value>, v: Value, depth: nat)
    requires depth <= MAX_ARCHIVE_DEPTH
    requires NodeOk(objects, v)
    requires forall c | c in Children(objects, v) :: Unarchive(objects, c, depth + 1).Success?
    ensures Unarchive(objects, v, depth).Success?
  {
    if v.Uid? {
      assert objects[v.index] in Children(objects, v);
    } else if v.Dictionary? && ArrayAt(v.entries, "NS.objects").Some? {
      var vals := ArrayAt(v.entries, "NS.objects").value;
      var trees := seq(|vals|, i requires 0 <= i < |vals| => ValueOf(objects, vals[i], depth + 1));
      forall i | 0 <= i < |vals| ensures Unarchive(objects, vals[i], depth + 1) == Success(trees[i]) {
        assert vals[i] in Children(objects, v);
      }
      if ArrayAt(v.entries, "NS.keys").Some? {
        var keys := ArrayAt(v.entries, "NS.keys").value;
        var names := seq(|keys|, i requires 0 <= i < |keys| => TextOf(objects, keys[i], depth + 1));
        forall i | 0 <= i < |keys|
          ensures Unarchive(objects, keys[i], depth + 1) == Success(Strings(names)[i])
        {
          assert keys[i] in keys && keys[i] in Children(objects, v);
          var p :| Chain(objects, p) && p[0] == keys[i];
          ChainResolves(objects, p, depth + 1);
        }
        ResolvedEntries(objects, keys, vals, names, trees, depth + 1);
      } else {
        ItemsPointwise(objects, vals, depth + 1, trees);
      }
    }
  }

  ghost function ValueOf(objects: seq<Value>, v: Value, depth: nat): Value {
    var r := Unarchive(objects, v, depth);
    if r.Success? then r.value else v
  }

  ghost function TextOf(objects: seq<Value>, v: Value, depth: nat): string {
    var t := ValueOf(objects, v, depth);
    if t.String? then t.text else ""
  }

  /** The resolver succeeds exactly when every walk from the value fits the remaining
      budget and meets only sound nodes. */
  lemma SucceedsExactlyWhenWalksFit(objects: seq<Value>, v: Value, depth: nat)
    ensures Unarchive(objects, v, depth).Success?
       <==> WalksOk(objects, v, 64 - depth)
  {
    if Unarchive(objects, v, depth).Success? {
      ResolvedWalks(objects, v, depth);
    } else if WalksOk(objects, v, MAX_ARCHIVE_DEPTH - depth) {
      FittingWalksResolve(objects, v, depth);
    }
  }

  lemma {:induction false} FittingWalksResolve(objects: seq<Value>, v: Value, depth: nat)
    requires WalksOk(objects, v, MAX_ARCHIVE_DEPTH - depth)
    ensures Unarchive(objects, v, depth).Success?
    decreases MAX_ARCHIVE_DEPTH + 1 - depth
  {
    var bound, below := MAX_ARCHIVE_DEPTH - depth, depth + 1;
    assert 0 <= bound && NodeOk(objects, v) by {
      WalkStartsOk(objects, v, bound);
    }
    forall c | c in Children(objects, v) ensures Unarchive(objects, c, below).Success? {
      assert WalksOk(objects, c, MAX_ARCHIVE_DEPTH - below) by {
        WalksFromChild(objects, v, c, bound);
      }
      FittingWalksResolve(objects, c, below);
    }
    NodeResolves(objects, v, depth);
  }

  lemma ResolvedWalks(objects: seq<Value>, v: Value, depth: nat)
    requires Unarchive(objects, v, depth).Success?
    ensures WalksOk(objects, v, MAX_ARCHIVE_DEPTH - depth)
  {
    forall p | WalkFrom(objects, v, p)
      ensures |p| - 1 <= MAX_ARCHIVE_DEPTH - depth && NodeOk(objects, p[|p| - 1])
    {
      ResolvedWalk(objects, p, depth);
    }
  }

  lemma ResolvedWalk(objects: seq<Value>, p: seq<Value>, depth: nat)
    requires Path(objects, p)
    requires Unarchive(objects, p[0], depth).Success?
    ensures |p| - 1 <= MAX_ARCHIVE_DEPTH - depth && NodeOk(objects, p[|p| - 1])
  {
    ResolvesAlong(objects, p, depth);
    ResolvedNode(objects, p[|p| - 1], depth + |p| - 1);
  }

  lemma WalkStartsOk(objects: seq<Value>, v: Value, bound: int)
    requires WalksOk(objects, v, bound)
    ensures 0 <= bound && NodeOk(objects, v)
  {
    assert WalkFrom(objects, v, [v]);
  }

  lemma WalkExtended(objects: seq<Value>, v: Value, c: Value, q: seq<Value>)
    requires WalkFrom(objects, c, q) && c in Children(objects, v)
    ensures var p := [v] + q; WalkFrom(objects, v, p) && p[|p| - 1] == q[|q| - 1]
  {
    var p := [v] + q;
    forall i | 0 < i < |p| ensures p[i] in Children(objects, p[i - 1]) {
      if i > 1 {
        assert q[i - 1] in Children(objects, q[i - 2]);
      }
    }
  }

  lemma WalksFromChild(objects: seq<Value>, v: Value, c: Value, bound: int)
    requires WalksOk(objects, v, bound)
    requires c in Children(objects, v)
    ensures WalksOk(objects, c, bound - 1)
  {
    forall q | WalkFrom(objects, c, q)
      ensures |q| - 1 <= bound - 1 && NodeOk(objects, q[|q| - 1])
    {
      WalkExtended(objects, v, c, q);
      assert WalkFrom(objects, v, [v] + q);
    }
  }

  /** Resolution descends along a walk, one level a step. */
  lemma {:induction false} ResolvesAlong(objects: seq<Value>, p: seq<Value>, depth: nat)
    requires Path(objects, p)
    requires Unarchive(objects, p[0], depth).Success?
    ensures Unarchive(objects, p[|p| - 1], depth + |p| - 1).Success?
    decreases |p|
  {
    if |p| > 1 {
      ResolvedNode(objects, p[0], depth);
      ResolvesAlong(objects, p[1..], depth + 1);
    }
  }

  /** A value from which a cycle can be reached never resolves, at any depth. */
  lemma {:induction false} CycleNeverResolves(objects: seq<Value>, p: seq<Value>, i: nat, j: nat, depth: nat)
    requires Path(objects, p)
    requires i < j < |p| && p[i] == p[j]
    ensures Unarchive(objects, p[0], depth).Failure?
  {
    if Unarchive(objects, p[0], depth).Success? {
      assert Path(objects, p[..i + 1]);
      ResolvesAlong(objects, p[..i + 1], depth);
      AroundTheCycle(objects, p[i..j + 1], depth + i);
    }
  }

  lemma {:induction false} AroundTheCycle(objects: seq<Value>, cycle: seq<Value>, depth: nat)
    requires Path(objects, cycle)
    requires |cycle| > 1 && cycle[0] == cycle[|cycle| - 1]
    ensures Unarchive(objects, cycle[0], depth).Failure?
    decreases MAX_ARCHIVE_DEPTH + 1 - depth
  {
    if Unarchive(objects, cycle[0], depth).Success? {
      ResolvesAlong(objects, cycle, depth);
      AroundTheCycle(objects, cycle, depth + |cycle| - 1);
    }
  }
}
