/** What the resolver's errors mean: each is a real defect, reached from the root. */
module ArchiveErrors {
  import opened Plist
  import opened Wrappers
  import opened Archive
  import opened ArchiveSemantics

  // ---------------------------------------------------------------------------
  // The envelope
  // ---------------------------------------------------------------------------

  /** The envelope of an archive: an object table, and a root reference among its top entries. */
  ghost predicate Enveloped(root: Value, objects: seq<Value>, v: Value) {
    && root.Dictionary?
    && "$objects" in root.entries && root.entries["$objects"] == Array(objects)
    && "$top" in root.entries && root.entries["$top"].Dictionary?
    && "root" in root.entries["$top"].entries && root.entries["$top"].entries["root"] == v
  }

  /** Exactly when there is one, and what is missing first when there is not. */
  lemma EnvelopeExactly(root: Value, objects: seq<Value>, v: Value)
    ensures Envelope(root) == Success((objects, v)) <==> Enveloped(root, objects, v)
    ensures !root.Dictionary? ==> Envelope(root) == Failure(RootNotDictionary)
    ensures root.Dictionary? && !HasTable(root) ==> Envelope(root) == Failure(NoObjects)
    ensures HasTable(root) && !HasTop(root) ==> Envelope(root) == Failure(NoTop)
    ensures HasTable(root) && HasTop(root) && "root" !in root.entries["$top"].entries ==>
              Envelope(root) == Failure(NoRoot)
  {
  }

  ghost predicate HasTable(root: Value) {
    root.Dictionary? && "$objects" in root.entries && root.entries["$objects"].Array?
  }

  ghost predicate HasTop(root: Value) {
    root.Dictionary? && "$top" in root.entries && root.entries["$top"].Dictionary?
  }

  /** The root of an archive is a dictionary exactly when its root reference unfolds to that one
      within 64 indirections; anything else it unfolds to is refused. */
  lemma RootExactly(root: Value, objects: seq<Value>, v: Value, t: Value)
    requires Enveloped(root, objects, v) && Unfolds(objects, v, t, 64)
    ensures UnarchiveRoot(root) == if t.Dictionary? then Success(t.entries) else Failure(ArchivedRootNotDictionary)
  {
    EnvelopeExactly(root, objects, v);
    UnarchiveExact(objects, v, 0, t);
  }

  // ---------------------------------------------------------------------------
  // Defects
  // ---------------------------------------------------------------------------

  /** The node is wrong in the way the error says. */
  ghost predicate Defect(objects: seq<Value>, v: Value, error: ArchiveError) {
    match error
    case UidOutOfBounds(index) => v == Uid(index) && index >= |objects|
    case LengthMismatch =>
      && v.Dictionary?
      && ArrayAt(v.entries, "NS.keys").Some? && ArrayAt(v.entries, "NS.objects").Some?
      && |ArrayAt(v.entries, "NS.keys").value| != |ArrayAt(v.entries, "NS.objects").value|
    case KeyNotString =>
      && v.Dictionary?
      && ArrayAt(v.entries, "NS.keys").Some? && ArrayAt(v.entries, "NS.objects").Some?
      && exists k :: k in ArrayAt(v.entries, "NS.keys").value && !LeadsToString(objects, k)
    case _ => false
  }

  /** What a failure at `depth` is about: a walk beyond the budget, or a defect within it. */
  ghost predicate Explains(objects: seq<Value>, v: Value, depth: nat, p: seq<Value>, error: ArchiveError) {
    && WalkFrom(objects, v, p)
    && (if error == TooDeep then depth + |p| - 1 > 64
        else depth + |p| - 1 <= 64 && Defect(objects, p[|p| - 1], error))
  }

  /** Every error names a real defect, at the end of a walk from the value. */
  lemma {:induction false} ErrorIsReal(objects: seq<Value>, v: Value, depth: nat) returns (p: seq<Value>)
    requires Unarchive(objects, v, depth).Failure?
    ensures Explains(objects, v, depth, p, Unarchive(objects, v, depth).error)
    decreases MAX_ARCHIVE_DEPTH + 1 - depth
  {
    var error := Unarchive(objects, v, depth).error;
    p := [v];
    if depth <= MAX_ARCHIVE_DEPTH && !Defect(objects, v, error) {
      var c := FailingChild(objects, v, depth);
      var q := ErrorIsReal(objects, c, depth + 1);
      p := Extended(objects, v, c, q, depth, error);
    }
  }

  lemma Extended(objects: seq<Value>, v: Value, c: Value, q: seq<Value>, depth: nat, error: ArchiveError)
    returns (p: seq<Value>)
    requires c in Children(objects, v) && Explains(objects, c, depth + 1, q, error)
    ensures Explains(objects, v, depth, p, error)
  {
    p := [v] + q;
    assert p[|p| - 1] == q[|q| - 1];
  }

  /** A failure that is not the node's own is that of a child. */
  lemma FailingChild(objects: seq<Value>, v: Value, depth: nat) returns (c: Value)
    requires depth <= MAX_ARCHIVE_DEPTH && Unarchive(objects, v, depth).Failure?
    requires !Defect(objects, v, Unarchive(objects, v, depth).error)
    ensures c in Children(objects, v)
    ensures Unarchive(objects, c, depth + 1) == Unarchive(objects, v, depth)
  {
    if v.Uid? {
      c := objects[v.index];
    } else {
      var vals, keys := ArrayAt(v.entries, "NS.objects").value, ArrayAt(v.entries, "NS.keys");
      if keys.Some? {
        c := FailingEntry(objects, keys.value, vals, depth + 1);
      } else {
        c := FailingItem(objects, vals, depth + 1);
      }
    }
  }

  lemma {:induction false} FailingItem(objects: seq<Value>, vals: seq<Value>, depth: nat) returns (c: Value)
    requires UnarchiveItems(objects, vals, depth).Failure?
    ensures c in vals && Unarchive(objects, c, depth) == Failure(UnarchiveItems(objects, vals, depth).error)
    decreases |vals|
  {
    var n := |vals| - 1;
    c := vals[n];
    if UnarchiveItems(objects, vals[..n], depth).Failure? {
      c := FailingItem(objects, vals[..n], depth);
    }
  }

  lemma {:induction false} FailingEntry(objects: seq<Value>, keys: seq<Value>, vals: seq<Value>, depth: nat)
    returns (c: Value)
    requires |keys| == |vals| && UnarchiveEntries(objects, keys, vals, depth).Failure?
    requires UnarchiveEntries(objects, keys, vals, depth).error == KeyNotString ==>
               forall k | k in keys :: LeadsToString(objects, k)
    ensures c in keys + vals
    ensures Unarchive(objects, c, depth) == Failure(UnarchiveEntries(objects, keys, vals, depth).error)
    decreases |keys|
  {
    var n := |keys| - 1;
    if UnarchiveEntries(objects, keys[..n], vals[..n], depth).Failure? {
      c := FailingEntry(objects, keys[..n], vals[..n], depth);
    } else {
      assert keys[n] in keys && vals[n] in vals;
      if Unarchive(objects, keys[n], depth).Failure? {
        c := keys[n];
      } else {
        c := vals[n];
        if !Unarchive(objects, keys[n], depth).value.String? {
          KeyLeads(objects, keys[n], depth);
        }
      }
    }
  }

  lemma KeyLeads(objects: seq<Value>, k: Value, depth: nat)
    requires Unarchive(objects, k, depth).Success? && LeadsToString(objects, k)
    ensures Unarchive(objects, k, depth).value.String?
  {
    var p :| Chain(objects, p) && p[0] == k;
    ChainResolves(objects, p, depth);
  }
}
