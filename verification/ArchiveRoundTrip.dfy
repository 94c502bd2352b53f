/**
  Archiving a tree and resolving it again: any archive of a tree, sharing slots or not,
  resolves to exactly that tree if it is at most 31 levels deep, and to an error if not.
 */
module ArchiveRoundTrip {
  import opened Archive
  import opened ArchiveSemantics
  import opened Plist
  import opened Wrappers

  // ---------------------------------------------------------------------------
  // Trees and their archives
  // ---------------------------------------------------------------------------

  /** A tree of dictionaries, arrays and scalars: no UID is left in it. */
  ghost predicate Plain(t: Value) {
    match t
    case Dictionary(entries) => forall name | name in entries :: Plain(entries[name])
    case Array(items) => forall i | 0 <= i < |items| :: Plain(items[i])
    case Uid(_) => false
    case _ => true
  }

  /** No node of the tree is more than `n` levels below its root. */
  ghost predicate HeightAtMost(t: Value, n: nat) {
    match t
    case Dictionary(entries) =>
      entries == map[] || (n > 0 && forall name | name in entries :: HeightAtMost(entries[name], n - 1))
    case Array(items) =>
      items == [] || (n > 0 && forall i | 0 <= i < |items| :: HeightAtMost(items[i], n - 1))
    case _ => true
  }

  /** A reference to a slot that holds a string. */
  ghost predicate NamesSlot(objects: seq<Value>, k: Value) {
    k.Uid? && k.index < |objects| && objects[k.index].String?
  }

  /** Slot `u` of the table holds an archive of `t`. Several references may name one slot. */
  ghost predicate Archives(objects: seq<Value>, u: nat, t: Value)
    decreases t
  {
    && u < |objects|
    && match t
       case Dictionary(entries) =>
         && objects[u].Dictionary?
         && var d := objects[u].entries;
            && ArrayAt(d, "NS.keys").Some?
            && ArrayAt(d, "NS.objects").Some?
            && var keys, vals := ArrayAt(d, "NS.keys").value, ArrayAt(d, "NS.objects").value;
               && |keys| == |vals|
               && (forall i | 0 <= i < |keys| ::
                     && NamesSlot(objects, keys[i])
                     && objects[keys[i].index].text in entries
                     && vals[i].Uid?
                     && Archives(objects, vals[i].index, entries[objects[keys[i].index].text]))
               && (forall name | name in entries ::
                     exists i :: 0 <= i < |keys| && objects[keys[i].index].text == name)
       case Array(items) =>
         && objects[u].Dictionary?
         && var d := objects[u].entries;
            && ArrayAt(d, "NS.keys").None?
            && ArrayAt(d, "NS.objects").Some?
            && var vals := ArrayAt(d, "NS.objects").value;
               && |vals| == |items|
               && forall i | 0 <= i < |items| ::
                    vals[i].Uid? && Archives(objects, vals[i].index, items[i])
       case Uid(_) => false
       case _ => objects[u] == t
  }

  // ---------------------------------------------------------------------------
  // The only way an archive fails is the depth budget
  // ---------------------------------------------------------------------------

  ghost predicate ResolvesOrTooDeep(objects: seq<Value>, v: Value, t: Value, depth: nat) {
    Unarchive(objects, v, depth) == Success(t) || Unarchive(objects, v, depth) == Failure(TooDeep)
  }

  lemma {:induction false} ItemsOrTooDeep(objects: seq<Value>, vals: seq<Value>, trees: seq<Value>, depth: nat)
    requires |vals| == |trees|
    requires forall i | 0 <= i < |vals| :: ResolvesOrTooDeep(objects, vals[i], trees[i], depth)
    ensures UnarchiveItems(objects, vals, depth)
         == if Pointwise(objects, vals, trees, depth) then Success(trees) else Failure(TooDeep)
    decreases |vals|
  {
    ItemsPointwise(objects, vals, depth, trees);
    if vals != [] {
      var n := |vals| - 1;
      ItemsOrTooDeep(objects, vals[..n], trees[..n], depth);
      if Pointwise(objects, vals[..n], trees[..n], depth) && Unarchive(objects, vals[n], depth).Success? {
        forall i | 0 <= i < |vals| ensures Unarchive(objects, vals[i], depth) == Success(trees[i]) {
          if i < n { assert vals[..n][i] == vals[i]; }
        }
      }
    }
  }

  lemma {:induction false} EntriesOrTooDeep(objects: seq<Value>, keys: seq<Value>, vals: seq<Value>,
                                            names: seq<string>, trees: seq<Value>, depth: nat)
    requires |keys| == |vals| == |names| == |trees|
    requires forall i | 0 <= i < |keys| :: ResolvesOrTooDeep(objects, keys[i], String(names[i]), depth)
    requires forall i | 0 <= i < |keys| :: ResolvesOrTooDeep(objects, vals[i], trees[i], depth)
    ensures UnarchiveEntries(objects, keys, vals, depth)
         == if Pointwise(objects, keys, Strings(names), depth) && Pointwise(objects, vals, trees, depth)
            then Success(Inserted(names, trees)) else Failure(TooDeep)
    decreases |keys|
  {
    if Pointwise(objects, keys, Strings(names), depth) && Pointwise(objects, vals, trees, depth) {
      ResolvedEntries(objects, keys, vals, names, trees, depth);
    } else {
      var n := |keys| - 1;
      EntriesOrTooDeep(objects, keys[..n], vals[..n], names[..n], trees[..n], depth);
      if UnarchiveEntries(objects, keys, vals, depth).Success? {
        forall i | 0 <= i < |keys|
          ensures Unarchive(objects, keys[i], depth) == Success(Strings(names)[i])
          ensures Unarchive(objects, vals[i], depth) == Success(trees[i])
        {
          if i < n {
            assert keys[..n][i] == keys[i] && vals[..n][i] == vals[i];
            assert Strings(names[..n])[i] == String(names[i]);
          }
        }
        assert false;
      }
    }
  }

  /** A slot that archives `t`, met at `depth`, resolves to `t` if the levels below it fit
      what is left of the budget, two indirections a level; otherwise it is too deep. */
  lemma {:induction false} SlotResolves(objects: seq<Value>, u: nat, t: Value, depth: nat)
    requires Archives(objects, u, t)
    ensures Unarchive(objects, objects[u], depth)
         == if depth <= MAX_ARCHIVE_DEPTH && HeightAtMost(t, (MAX_ARCHIVE_DEPTH - depth) / 2)
            then Success(t) else Failure(TooDeep)
    decreases t, 2
  {
    if depth <= MAX_ARCHIVE_DEPTH {
      match t {
        case Dictionary(entries) => DictionarySlotResolves(objects, u, t, depth);
        case Array(items) => ArraySlotResolves(objects, u, t, depth);
        case _ =>
      }
    }
  }

  /** The same for a reference to the slot, one indirection earlier. */
  lemma {:induction false} ReferenceResolves(objects: seq<Value>, u: nat, t: Value, depth: nat)
    requires Archives(objects, u, t)
    ensures Unarchive(objects, Uid(u), depth)
         == if depth < 64 && HeightAtMost(t, (64 - depth - 1) / 2)
            then Success(t) else Failure(TooDeep)
    decreases t, 3
  {
    var below := depth + 1;
    SlotResolves(objects, u, t, below);
    ReferenceStep(objects, u, depth, below);
  }

  /** A reference in range costs one indirection. */
  lemma ReferenceStep(objects: seq<Value>, u: nat, depth: nat, below: nat)
    requires u < |objects| && below == depth + 1
    ensures Unarchive(objects, Uid(u), depth)
         == if depth <= MAX_ARCHIVE_DEPTH then Unarchive(objects, objects[u], below) else Failure(TooDeep)
  {
  }

  lemma {:induction false} ArraySlotResolves(objects: seq<Value>, u: nat, t: Value, depth: nat)
    requires depth <= MAX_ARCHIVE_DEPTH
    requires t.Array? && Archives(objects, u, t)
    ensures Unarchive(objects, objects[u], depth)
         == if HeightAtMost(t, (MAX_ARCHIVE_DEPTH - depth) / 2) then Success(t) else Failure(TooDeep)
    decreases t, 0
  {
    var vals := ArrayAt(objects[u].entries, "NS.objects").value;
    forall i | 0 <= i < |vals|
      ensures Unarchive(objects, vals[i], depth + 1)
           == if depth + 1 < MAX_ARCHIVE_DEPTH && HeightAtMost(t.items[i], (MAX_ARCHIVE_DEPTH - depth) / 2 - 1)
              then Success(t.items[i]) else Failure(TooDeep)
    {
      ReferenceResolves(objects, vals[i].index, t.items[i], depth + 1);
    }
    ArrayToHeight(objects, objects[u], vals, t, depth);
  }

  /** If each item resolves when it is low enough, the array does when it is. */
  lemma ArrayToHeight(objects: seq<Value>, v: Value, vals: seq<Value>, t: Value, depth: nat)
    requires depth <= MAX_ARCHIVE_DEPTH && t.Array? && v.Dictionary? && |vals| == |t.items|
    requires ArrayAt(v.entries, "NS.objects") == Some(vals) && ArrayAt(v.entries, "NS.keys") == None
    requires forall i | 0 <= i < |vals| ::
               Unarchive(objects, vals[i], depth + 1)
               == if depth + 1 < MAX_ARCHIVE_DEPTH && HeightAtMost(t.items[i], (MAX_ARCHIVE_DEPTH - depth) / 2 - 1)
                  then Success(t.items[i]) else Failure(TooDeep)
    ensures Unarchive(objects, v, depth)
         == if HeightAtMost(t, (MAX_ARCHIVE_DEPTH - depth) / 2) then Success(t) else Failure(TooDeep)
  {
    ItemsOrTooDeep(objects, vals, t.items, depth + 1);
  }

  lemma {:induction false} DictionarySlotResolves(objects: seq<Value>, u: nat, t: Value, depth: nat)
    requires depth <= MAX_ARCHIVE_DEPTH
    requires t.Dictionary? && Archives(objects, u, t)
    ensures Unarchive(objects, objects[u], depth)
         == if HeightAtMost(t, (MAX_ARCHIVE_DEPTH - depth) / 2) then Success(t) else Failure(TooDeep)
    decreases t, 1
  {
    var keys, vals, names, trees := ArchivedEntries(objects, u, t);
    EntryReferencesResolve(objects, keys, vals, names, trees, t, depth);
    EntriesToHeight(objects, keys, vals, names, trees, t, depth);
    DictionaryFrom(objects, objects[u], keys, vals, depth);
  }

  /** The references of an archived dictionary, beside the names and trees they stand for. */
  lemma ArchivedEntries(objects: seq<Value>, u: nat, t: Value)
    returns (keys: seq<Value>, vals: seq<Value>, names: seq<string>, trees: seq<Value>)
    requires t.Dictionary? && Archives(objects, u, t)
    ensures objects[u].Dictionary?
    ensures ArrayAt(objects[u].entries, "NS.keys") == Some(keys)
    ensures ArrayAt(objects[u].entries, "NS.objects") == Some(vals)
    ensures |keys| == |vals| == |names| == |trees|
    ensures forall name :: name in t.entries <==> name in names
    ensures forall i | 0 <= i < |names| :: names[i] in t.entries && trees[i] == t.entries[names[i]]
    ensures forall i | 0 <= i < |keys| :: NamesSlot(objects, keys[i]) && objects[keys[i].index] == String(names[i])
    ensures forall i | 0 <= i < |vals| :: vals[i].Uid? && Archives(objects, vals[i].index, trees[i])
  {
    var d := objects[u].entries;
    keys, vals := ArrayAt(d, "NS.keys").value, ArrayAt(d, "NS.objects").value;
    names := seq(|keys|, i requires 0 <= i < |keys| => objects[keys[i].index].text);
    trees := seq(|keys|, i requires 0 <= i < |keys| => t.entries[names[i]]);
    forall name | name in t.entries ensures name in names {
      var i :| 0 <= i < |keys| && objects[keys[i].index].text == name;
      assert names[i] == name;
    }
  }

  lemma {:induction false} EntryReferencesResolve(
      objects: seq<Value>, keys: seq<Value>, vals: seq<Value>, names: seq<string>, trees: seq<Value>,
      t: Value, depth: nat)
    requires depth <= MAX_ARCHIVE_DEPTH && t.Dictionary?
    requires |keys| == |vals| == |names| == |trees|
    requires forall i | 0 <= i < |names| :: names[i] in t.entries && trees[i] == t.entries[names[i]]
    requires forall i | 0 <= i < |keys| :: NamesSlot(objects, keys[i]) && objects[keys[i].index] == String(names[i])
    requires forall i | 0 <= i < |vals| :: vals[i].Uid? && Archives(objects, vals[i].index, trees[i])
    ensures forall i | 0 <= i < |keys| ::
              Unarchive(objects, keys[i], depth + 1)
              == if depth + 1 < MAX_ARCHIVE_DEPTH then Success(String(names[i])) else Failure(TooDeep)
    ensures forall i | 0 <= i < |vals| ::
              Unarchive(objects, vals[i], depth + 1)
              == if depth + 1 < MAX_ARCHIVE_DEPTH && HeightAtMost(trees[i], (MAX_ARCHIVE_DEPTH - depth) / 2 - 1)
                 then Success(trees[i]) else Failure(TooDeep)
    decreases t, 0
  {
    forall i | 0 <= i < |keys|
      ensures Unarchive(objects, keys[i], depth + 1)
           == if depth + 1 < MAX_ARCHIVE_DEPTH then Success(String(names[i])) else Failure(TooDeep)
    {
      StringReferenceResolves(objects, keys[i].index, depth + 1);
    }
    forall i | 0 <= i < |vals|
      ensures Unarchive(objects, vals[i], depth + 1)
           == if depth + 1 < MAX_ARCHIVE_DEPTH && HeightAtMost(trees[i], (MAX_ARCHIVE_DEPTH - depth) / 2 - 1)
              then Success(trees[i]) else Failure(TooDeep)
    {
      ReferenceResolves(objects, vals[i].index, trees[i], depth + 1);
    }
  }

  /** How a dictionary node resolves, given how its entries do. */
  lemma DictionaryFrom(objects: seq<Value>, v: Value, keys: seq<Value>, vals: seq<Value>, depth: nat)
    requires depth <= MAX_ARCHIVE_DEPTH && v.Dictionary? && |keys| == |vals|
    requires ArrayAt(v.entries, "NS.keys") == Some(keys) && ArrayAt(v.entries, "NS.objects") == Some(vals)
    ensures var out := UnarchiveEntries(objects, keys, vals, depth + 1);
            Unarchive(objects, v, depth)
            == if out.Success? then Success(Dictionary(out.value)) else Failure(out.error)
  {
  }

  /** If the names resolve within the budget, and each tree does when it is low enough, then
      the entries of `t` resolve when `t` is. */
  lemma EntriesToHeight(objects: seq<Value>, keys: seq<Value>, vals: seq<Value>, names: seq<string>,
                        trees: seq<Value>, t: Value, depth: nat)
    requires depth <= MAX_ARCHIVE_DEPTH && t.Dictionary?
    requires |keys| == |vals| == |names| == |trees|
    requires forall name :: name in t.entries <==> name in names
    requires forall i | 0 <= i < |names| :: trees[i] == t.entries[names[i]]
    requires forall i | 0 <= i < |keys| ::
               Unarchive(objects, keys[i], depth + 1)
               == if depth + 1 < MAX_ARCHIVE_DEPTH then Success(String(names[i])) else Failure(TooDeep)
    requires forall i | 0 <= i < |vals| ::
               Unarchive(objects, vals[i], depth + 1)
               == if depth + 1 < MAX_ARCHIVE_DEPTH && HeightAtMost(trees[i], (MAX_ARCHIVE_DEPTH - depth) / 2 - 1)
                  then Success(trees[i]) else Failure(TooDeep)
    ensures UnarchiveEntries(objects, keys, vals, depth + 1)
         == if HeightAtMost(t, (MAX_ARCHIVE_DEPTH - depth) / 2) then Success(t.entries) else Failure(TooDeep)
  {
    assert Inserted(names, trees) == t.entries by {
      InsertedIs(names, trees, t.entries);
    }
    EntriesHeight(names, trees, t, (MAX_ARCHIVE_DEPTH - depth) / 2);
    EntriesOrTooDeep(objects, keys, vals, names, trees, depth + 1);
    if names != [] {
      if depth + 1 < MAX_ARCHIVE_DEPTH {
        assert Pointwise(objects, keys, Strings(names), depth + 1);
      } else {
        assert Unarchive(objects, keys[0], depth + 1).Failure?;
      }
    }
  }

  lemma StringReferenceResolves(objects: seq<Value>, u: nat, depth: nat)
    requires u < |objects| && objects[u].String?
    ensures Unarchive(objects, Uid(u), depth)
         == if depth < MAX_ARCHIVE_DEPTH then Success(objects[u]) else Failure(TooDeep)
  {
    assert Unarchive(objects, objects[u], depth + 1)
        == if depth + 1 <= MAX_ARCHIVE_DEPTH then Success(objects[u]) else Failure(TooDeep);
  }

  /** Inserting each name's own tree, for all the names there are, builds the map itself. */
  lemma InsertedIs(names: seq<string>, trees: seq<Value>, entries: map<string, Value>)
    requires |names| == |trees|
    requires forall name :: name in entries <==> name in names
    requires forall i | 0 <= i < |names| :: trees[i] == entries[names[i]]
    ensures Inserted(names, trees) == entries
  {
    InsertedIsLastWins(names, trees);
    LastWinsUnique(names, trees, Inserted(names, trees), entries);
  }

  lemma EntriesHeight(names: seq<string>, trees: seq<Value>, t: Value, n: nat)
    requires t.Dictionary? && |names| == |trees|
    requires forall name :: name in t.entries <==> name in names
    requires forall i | 0 <= i < |names| :: trees[i] == t.entries[names[i]]
    ensures HeightAtMost(t, n)
       <==> (names == [] || (n > 0 && forall i | 0 <= i < |trees| :: HeightAtMost(trees[i], n - 1)))
  {
    if names == [] {
      assert t.entries == map[];
    } else {
      assert names[0] in t.entries;
      if n > 0 && forall i | 0 <= i < |trees| :: HeightAtMost(trees[i], n - 1) {
        forall name | name in t.entries ensures HeightAtMost(t.entries[name], n - 1) {
          var i :| 0 <= i < |names| && names[i] == name;
          assert HeightAtMost(trees[i], n - 1);
        }
      }
      if HeightAtMost(t, n) {
        forall i | 0 <= i < |trees| ensures HeightAtMost(trees[i], n - 1) {
          assert names[i] in t.entries;
        }
      }
    }
  }

  /** Round trip with its tight bound. Whatever slots an archive uses for its nodes, its root
      resolves to the archived dictionary when that is at most 31 levels deep, and is
      refused as too deep when it is not. */
  lemma ArchivedRootResolves(root: Value, objects: seq<Value>, u: nat, entries: map<string, Value>)
    requires Envelope(root) == Success((objects, Uid(u)))
    requires Archives(objects, u, Dictionary(entries))
    ensures UnarchiveRoot(root)
         == if HeightAtMost(Dictionary(entries), 31) then Success(entries) else Failure(TooDeep)
  {
    var t := Dictionary(entries);
    RootReferenceResolves(objects, u, t, 0, 31);
    RootFrom(root, objects, Uid(u), if HeightAtMost(t, 31) then Success(t) else Failure(TooDeep));
  }

  lemma RootReferenceResolves(objects: seq<Value>, u: nat, t: Value, depth: nat, levels: nat)
    requires depth < MAX_ARCHIVE_DEPTH && levels == (MAX_ARCHIVE_DEPTH - depth - 1) / 2
    requires Archives(objects, u, t)
    ensures Unarchive(objects, Uid(u), depth) == if HeightAtMost(t, levels) then Success(t) else Failure(TooDeep)
  {
    ReferenceResolves(objects, u, t, depth);
  }

  lemma RootFrom(root: Value, objects: seq<Value>, v: Value, r: Resolved)
    requires Envelope(root) == Success((objects, v))
    requires Unarchive(objects, v, 0) == r
    ensures r.Failure? ==> UnarchiveRoot(root) == Failure(r.error)
    ensures r.Success? && r.value.Dictionary? ==> UnarchiveRoot(root) == Success(r.value.entries)
    ensures r.Success? && !r.value.Dictionary? ==> UnarchiveRoot(root) == Failure(ArchivedRootNotDictionary)
  {
  }

  // ---------------------------------------------------------------------------
  // Every plain tree has an archive
  // ---------------------------------------------------------------------------

  /** Appending slots to a table keeps every archive in it. */
  lemma {:induction false} ArchivesExtended(objects: seq<Value>, more: seq<Value>, u: nat, t: Value)
    requires Archives(objects, u, t)
    ensures Archives(objects + more, u, t)
    decreases t
  {
    match t {
      case Dictionary(entries) =>
        var d := objects[u].entries;
        var keys, vals := ArrayAt(d, "NS.keys").value, ArrayAt(d, "NS.objects").value;
        forall i | 0 <= i < |keys|
          ensures NamesSlot(objects + more, keys[i])
          ensures Archives(objects + more, vals[i].index, entries[(objects + more)[keys[i].index].text])
        {
          ArchivesExtended(objects, more, vals[i].index, entries[objects[keys[i].index].text]);
        }
        forall name | name in entries
          ensures exists i :: 0 <= i < |keys| && (objects + more)[keys[i].index].text == name
        {
          var i :| 0 <= i < |keys| && objects[keys[i].index].text == name;
          assert (objects + more)[keys[i].index].text == name;
        }
      case Array(items) =>
        var vals := ArrayAt(objects[u].entries, "NS.objects").value;
        forall i | 0 <= i < |items| ensures Archives(objects + more, vals[i].index, items[i]) {
          ArchivesExtended(objects, more, vals[i].index, items[i]);
        }
      case _ =>
    }
  }

  ghost function References(slots: seq<nat>): (r: seq<Value>)
    ensures |r| == |slots| && forall i | 0 <= i < |slots| :: r[i] == Uid(slots[i])
  {
    seq(|slots|, i requires 0 <= i < |slots| => Uid(slots[i]))
  }

  /** Append an archive of `t` to the table. */
  lemma {:induction false} Emit(objects: seq<Value>, t: Value) returns (more: seq<Value>, u: nat)
    requires Plain(t)
    ensures Archives(objects + more, u, t)
    decreases t, 1
  {
    more, u := [t], |objects|;
    match t {
      case Dictionary(entries) =>
        var names := SequenceOf(entries.Keys);
        var slots, keySlots, valSlots := EmitEntries(objects, t, names);
        var node := DictionaryNode(keySlots, valSlots);
        more, u := slots + [node], |objects + slots|;
        assert objects + more == objects + slots + [node];
        DictionaryNodeArchives(objects + slots, t, names, keySlots, valSlots);
      case Array(items) =>
        var slots, valSlots := EmitItems(objects, t, |items|);
        var node := ArrayNode(valSlots);
        more, u := slots + [node], |objects + slots|;
        assert objects + more == objects + slots + [node];
        ArrayNodeArchives(objects + slots, t, valSlots);
      case _ =>
    }
  }

  ghost function DictionaryNode(keySlots: seq<nat>, valSlots: seq<nat>): Value {
    Dictionary(map["NS.keys" := Array(References(keySlots)), "NS.objects" := Array(References(valSlots))])
  }

  ghost function ArrayNode(valSlots: seq<nat>): Value {
    Dictionary(map["NS.objects" := Array(References(valSlots))])
  }

  lemma DictionaryNodeArchives(before: seq<Value>, t: Value, names: seq<string>, keySlots: seq<nat>,
                               valSlots: seq<nat>)
    requires t.Dictionary? && |names| == |keySlots| == |valSlots|
    requires forall name :: name in t.entries <==> name in names
    requires forall i | 0 <= i < |names| ::
               && names[i] in t.entries
               && keySlots[i] < |before| && before[keySlots[i]] == String(names[i])
               && Archives(before, valSlots[i], t.entries[names[i]])
    ensures Archives(before + [DictionaryNode(keySlots, valSlots)], |before|, t)
  {
    var node := DictionaryNode(keySlots, valSlots);
    var after := before + [node];
    forall i | 0 <= i < |names|
      ensures after[keySlots[i]] == String(names[i])
      ensures Archives(after, valSlots[i], t.entries[names[i]])
    {
      ArchivesExtended(before, [node], valSlots[i], t.entries[names[i]]);
    }
    SlotArchives(after, |before|, t, names, keySlots, valSlots);
  }

  lemma SlotArchives(objects: seq<Value>, u: nat, t: Value, names: seq<string>, keySlots: seq<nat>, valSlots: seq<nat>)
    requires u < |objects| && objects[u] == DictionaryNode(keySlots, valSlots)
    requires t.Dictionary? && |names| == |keySlots| == |valSlots|
    requires forall name :: name in t.entries <==> name in names
    requires forall i | 0 <= i < |names| :: keySlots[i] < |objects| && objects[keySlots[i]] == String(names[i])
    requires forall i | 0 <= i < |names| :: Archives(objects, valSlots[i], t.entries[names[i]])
    ensures Archives(objects, u, t)
  {
    var keys, vals := References(keySlots), References(valSlots);
    assert ArrayAt(objects[u].entries, "NS.keys") == Some(keys);
    assert ArrayAt(objects[u].entries, "NS.objects") == Some(vals);
    forall i | 0 <= i < |keys|
      ensures NamesSlot(objects, keys[i]) && objects[keys[i].index].text == names[i] && names[i] in t.entries
      ensures vals[i].Uid? && Archives(objects, vals[i].index, t.entries[names[i]])
    {
      assert keys[i] == Uid(keySlots[i]) && vals[i] == Uid(valSlots[i]);
    }
    forall name | name in t.entries ensures exists i :: 0 <= i < |keys| && objects[keys[i].index].text == name {
      var i :| 0 <= i < |names| && names[i] == name;
      assert objects[keys[i].index].text == name;
    }
  }

  lemma ArrayNodeArchives(before: seq<Value>, t: Value, valSlots: seq<nat>)
    requires t.Array? && |valSlots| == |t.items|
    requires forall i | 0 <= i < |valSlots| :: Archives(before, valSlots[i], t.items[i])
    ensures Archives(before + [ArrayNode(valSlots)], |before|, t)
  {
    var node := ArrayNode(valSlots);
    var vals := References(valSlots);
    assert ArrayAt(node.entries, "NS.objects") == Some(vals) && ArrayAt(node.entries, "NS.keys") == None;
    forall i | 0 <= i < |vals| ensures vals[i].Uid? && Archives(before + [node], vals[i].index, t.items[i]) {
      ArchivesExtended(before, [node], valSlots[i], t.items[i]);
    }
    assert (before + [node])[|before|] == node;
  }

  lemma {:induction false} EmitItems(objects: seq<Value>, t: Value, n: nat)
    returns (more: seq<Value>, slots: seq<nat>)
    requires t.Array? && Plain(t) && n <= |t.items|
    ensures |slots| == n
    ensures forall i | 0 <= i < n :: Archives(objects + more, slots[i], t.items[i])
    decreases t, 0, n
  {
    if n == 0 {
      more, slots := [], [];
    } else {
      var more', slots' := EmitItems(objects, t, n - 1);
      var tail, u := Emit(objects + more', t.items[n - 1]);
      more, slots := more' + tail, slots' + [u];
      assert objects + more == objects + more' + tail;
      forall i | 0 <= i < n ensures Archives(objects + more, slots[i], t.items[i]) {
        if i < n - 1 { ArchivesExtended(objects + more', tail, slots'[i], t.items[i]); }
      }
    }
  }

  lemma {:induction false} EmitEntries(objects: seq<Value>, t: Value, names: seq<string>)
    returns (more: seq<Value>, keySlots: seq<nat>, valSlots: seq<nat>)
    requires t.Dictionary? && Plain(t)
    requires forall i | 0 <= i < |names| :: names[i] in t.entries
    ensures |keySlots| == |valSlots| == |names|
    ensures forall i | 0 <= i < |names| ::
              && keySlots[i] < |objects + more| && (objects + more)[keySlots[i]] == String(names[i])
              && Archives(objects + more, valSlots[i], t.entries[names[i]])
    decreases t, 0, |names|
  {
    if names == [] {
      more, keySlots, valSlots := [], [], [];
    } else {
      var n := |names| - 1;
      var more', keySlots', valSlots' := EmitEntries(objects, t, names[..n]);
      var key := [String(names[n])];
      var tail, u := Emit(objects + more' + key, t.entries[names[n]]);
      more, keySlots, valSlots := more' + key + tail, keySlots' + [|objects + more'|], valSlots' + [u];
      assert objects + more == objects + more' + (key + tail) == objects + more' + key + tail;
      forall i | 0 <= i < n ensures Archives(objects + more, valSlots'[i], t.entries[names[i]]) {
        assert names[..n][i] == names[i];
        ArchivesExtended(objects + more', key + tail, valSlots'[i], t.entries[names[i]]);
      }
    }
  }

  lemma {:induction false} SequenceOf(names: set<string>) returns (s: seq<string>)
    ensures forall name :: name in s <==> name in names
    decreases |names|
  {
    if names == {} {
      s := [];
    } else {
      var name :| name in names;
      var rest := SequenceOf(names - {name});
      s := rest + [name];
    }
  }

  /** So every plain dictionary has an archive, and resolving that archive gives it back
      exactly when it is at most 31 levels deep. */
  lemma RoundTrip(entries: map<string, Value>) returns (root: Value)
    requires Plain(Dictionary(entries))
    ensures UnarchiveRoot(root)
         == if HeightAtMost(Dictionary(entries), 31) then Success(entries) else Failure(TooDeep)
  {
    var objects, u := Emit([], Dictionary(entries));
    assert [] + objects == objects;
    root := Dictionary(map["$objects" := Array(objects),
                           "$top" := Dictionary(map["root" := Uid(u)])]);
    ArchivedRootResolves(root, objects, u, entries);
  }
}
