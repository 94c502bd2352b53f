/** What the descriptor join keeps: every descriptor exactly once, whatever order the
    textures were fetched in. */
module DescribeLaws {
  import opened Machine
  import opened Wrappers
  import opened Formats
  import opened Join
  import opened Describe

  /** The values present, in order. */
  function Somes<T>(s: seq<Option<T>>): seq<T> {
    if s == [] then []
    else
      var n := |s| - 1;
      Somes(s[..n]) + if s[n].Some? then [s[n].value] else []
  }

  // ---------------------------------------------------------------------------
  // Conservation
  // ---------------------------------------------------------------------------

  /** What the walk pairs is, in order, the first of the placeable descriptors. */
  lemma {:induction false} PairedAreSolid(keys: seq<Key>, descs: seq<Entry>, i: nat)
    requires i <= |keys|
    ensures Somes(Pairing(keys, descs)[..i]) == Solid(descs)[..Placed(keys[..i], SolidKeys(descs))]
    decreases i
  {
    var out, wanted := Pairing(keys, descs), SolidKeys(descs);
    if i > 0 {
      var last := i - 1;
      PairedAreSolid(keys, descs, last);
      PlacedStep(keys, wanted, last);
      assert out[..i][..last] == out[..last];
      assert out[last] == PairOf(keys, descs, last);
    }
  }

  lemma AtAppend<T>(s: seq<T>, at: seq<nat>, more: seq<nat>)
    requires AllBelow(at, |s|) && AllBelow(more, |s|)
    ensures At(s, at + more) == At(s, at) + At(s, more)
  {
  }

  lemma Regroup<T>(a: multiset<T>, b: multiset<T>, c: multiset<T>)
    ensures (a + b) + c == a + (b + c) && (a + b) + c == (a + c) + b
  {
  }

  lemma AppendedMultiset<T>(s: seq<T>, x: T)
    ensures multiset(s + [x]) == multiset(s) + multiset{x}
  {
  }

  /** The multiset of the elements standing at the given places. */
  function Taken<T>(s: seq<T>, at: seq<nat>): multiset<T>
    requires AllBelow(at, |s|)
  {
    multiset(At(s, at))
  }

  lemma TakenOneMore<T>(s: seq<T>, at: seq<nat>, x: nat)
    requires AllBelow(at, |s|) && x < |s|
    ensures AllBelow(at + [x], |s|) && Taken(s, at + [x]) == Taken(s, at) + multiset{s[x]}
  {
    AtOne(s, x);
    AtAppend(s, at, [x]);
    AppendedMultiset(At(s, at), s[x]);
  }

  lemma AtOne<T>(s: seq<T>, x: nat)
    requires x < |s|
    ensures At(s, [x]) == [s[x]]
  {
    assert At(s, [x]) == [s[x]];
  }

  /** The places in the two lists are those of `s`, with multiplicity. */
  ghost predicate Whole<T>(s: seq<T>, solid: seq<nat>, clear: seq<nat>) {
    && AllBelow(solid, |s|) && AllBelow(clear, |s|)
    && Taken(s, solid) + Taken(s, clear) == multiset(s)
  }

  /** Skipped and placeable descriptors together are all of them. */
  lemma {:induction false} SolidAndTransparent<T>(s: seq<T>, descs: seq<Entry>)
    requires |s| == |descs|
    ensures Whole(s, Solid(descs), Transparent(descs))
    decreases |s|
  {
    if s == [] {
      assert Taken(s, []) == multiset{};
    } else {
      var last := |s| - 1;
      var solid, clear := Solid(descs[..last]), Transparent(descs[..last]);
      SolidAndTransparent(s[..last], descs[..last]);
      OneMoreTaken(s, solid, clear);
      if descs[last].combined {
        assert Solid(descs) == solid && Transparent(descs) == clear + [last];
      } else {
        assert Solid(descs) == solid + [last] && Transparent(descs) == clear;
      }
    }
  }

  lemma OneMoreTaken<T>(s: seq<T>, solid: seq<nat>, clear: seq<nat>)
    requires s != [] && Whole(s[..|s| - 1], solid, clear)
    ensures Whole(s, solid + [|s| - 1], clear) && Whole(s, solid, clear + [|s| - 1])
  {
    var last := |s| - 1;
    AtPrefix(s, last, solid);
    AtPrefix(s, last, clear);
    WholeGrows(s);
    Regroup(Taken(s, solid), Taken(s, clear), multiset{s[last]});
    TakenOneMore(s, clear, last);
    TakenOneMore(s, solid, last);
  }

  lemma WholeGrows<T>(s: seq<T>)
    requires s != []
    ensures multiset(s) == multiset(s[..|s| - 1]) + multiset{s[|s| - 1]}
  {
    assert s == s[..|s| - 1] + [s[|s| - 1]];
  }

  lemma AtPrefix<T>(s: seq<T>, n: nat, at: seq<nat>)
    requires n <= |s| && AllBelow(at, n)
    ensures Taken(s[..n], at) == Taken(s, at)
  {
    assert At(s[..n], at) == At(s, at);
  }

  /** What is paired, what is left and what is skipped, by any labelling of the descriptors. */
  lemma WalkConserves<T>(s: seq<T>, keys: seq<Key>, descs: seq<Entry>)
    requires |s| == |descs|
    ensures AllBelow(Somes(Pairing(keys, descs)), |s|)
    ensures Taken(s, Somes(Pairing(keys, descs))) + Taken(s, Unplaced(keys, descs)) + Taken(s, Transparent(descs))
         == multiset(s)
  {
    var paired, left := Somes(Pairing(keys, descs)), Unplaced(keys, descs);
    PairedThenUnplaced(keys, descs);
    SolidAndTransparent(s, descs);
    assert AllBelow(paired, |s|) by {
      forall a | 0 <= a < |paired| ensures paired[a] < |s| {
        assert (paired + left)[a] == paired[a];
      }
    }
    AtAppend(s, paired, left);
  }

  lemma PairedThenUnplaced(keys: seq<Key>, descs: seq<Entry>)
    ensures Somes(Pairing(keys, descs)) + Unplaced(keys, descs) == Solid(descs)
  {
    PairedAreFirst(keys, descs);
    SplitAt(Solid(descs), Placed(keys, SolidKeys(descs)));
  }

  lemma PairedAreFirst(keys: seq<Key>, descs: seq<Entry>)
    ensures Somes(Pairing(keys, descs)) == Solid(descs)[..Placed(keys, SolidKeys(descs))]
  {
    PairedAreSolid(keys, descs, |keys|);
    Entire(keys);
    Entire(Pairing(keys, descs));
  }

  lemma Entire<T>(s: seq<T>)
    ensures s[..|s|] == s
  {
  }

  lemma SplitAt<T>(s: seq<T>, k: nat)
    requires k <= |s|
    ensures s[..k] + s[k..] == s
  {
  }

  function Upto(n: nat): (s: seq<nat>)
    ensures |s| == n && forall x | 0 <= x < n :: s[x] == x
  {
    seq(n, x => x)
  }

  /** Every descriptor index is in exactly one of the three lists, exactly once. */
  lemma EachIndexOnce(keys: seq<Key>, descs: seq<Entry>, d: nat)
    requires d < |descs|
    ensures Times(Somes(Pairing(keys, descs)), d) + Times(Unplaced(keys, descs), d) + Times(Transparent(descs), d) == 1
  {
    var all := Upto(|descs|);
    var paired, left, clear := Somes(Pairing(keys, descs)), Unplaced(keys, descs), Transparent(descs);
    WalkConserves(all, keys, descs);
    TimesTaken(all, paired, d);
    TimesTaken(all, left, d);
    TimesTaken(all, clear, d);
    TimesAdd(Taken(all, paired), Taken(all, left), Taken(all, clear), d);
    OnceUpto(|descs|, d);
  }

  function Times(s: seq<nat>, x: nat): nat {
    multiset(s)[x]
  }

  lemma TimesTaken(all: seq<nat>, at: seq<nat>, d: nat)
    requires AllBelow(at, |all|) && forall x | 0 <= x < |all| :: all[x] == x
    ensures Taken(all, at)[d] == Times(at, d)
  {
    assert At(all, at) == at;
  }

  lemma TimesAdd(a: multiset<nat>, b: multiset<nat>, c: multiset<nat>, d: nat)
    ensures (a + b + c)[d] == a[d] + b[d] + c[d]
  {
  }

  lemma {:induction false} OnceUpto(n: nat, d: nat)
    ensures Times(Upto(n), d) == if d < n then 1 else 0
    decreases n
  {
    if n > 0 {
      OnceUpto(n - 1, d);
      assert Upto(n) == Upto(n - 1) + [n - 1];
    }
  }

  /** How many of the first `n` are `x`. */
  ghost function Copies<T>(s: seq<Option<T>>, x: T, n: nat): nat
    requires n <= |s|
  {
    if n == 0 then 0 else Copies(s, x, n - 1) + if s[n - 1] == Some(x) then 1 else 0
  }

  lemma {:induction false} CopiesAfterWrite<T>(s: seq<Option<T>>, i: nat, v: Option<T>, x: T, n: nat)
    requires i < |s| && s[i] == None && n <= |s|
    ensures Copies(s[i := v], x, n) == Copies(s, x, n) + if i < n && v == Some(x) then 1 else 0
    decreases n
  {
    if n > 0 {
      CopiesAfterWrite(s, i, v, x, n - 1);
    }
  }

  lemma {:induction false} CopiesOfPrefix<T>(s: seq<Option<T>>, k: nat, x: T, n: nat)
    requires n <= k <= |s|
    ensures Copies(s[..k], x, n) == Copies(s, x, n)
    decreases n
  {
    if n > 0 {
      CopiesOfPrefix(s, k, x, n - 1);
    }
  }

  lemma {:induction false} CopiesAreCounted<T>(s: seq<Option<T>>, x: T)
    ensures multiset(Somes(s))[x] == Copies(s, x, |s|)
    decreases |s|
  {
    if s != [] {
      var n := |s| - 1;
      CopiesAreCounted(s[..n], x);
      CopiesOfPrefix(s, n, x, n);
    }
  }

  ghost predicate Injective(at: seq<nat>) {
    forall a, b | 0 <= a < b < |at| :: at[a] != at[b]
  }

  /** Nothing is written where no place points. */
  lemma {:induction false} ScatterMisses<T>(n: nat, at: seq<nat>, vals: seq<Option<T>>, x: nat)
    requires |at| == |vals| && AllBelow(at, n) && x < n && forall a | 0 <= a < |at| :: at[a] != x
    ensures Scatter(n, at, vals)[x] == None
    decreases |at|
  {
    if at != [] {
      ScatterMisses(n, at[..|at| - 1], vals[..|at| - 1], x);
    }
  }

  /** Where a place points once, its value stands. */
  lemma {:induction false} ScatterHits<T>(n: nat, at: seq<nat>, vals: seq<Option<T>>, a: nat)
    requires |at| == |vals| && AllBelow(at, n) && Injective(at) && a < |at|
    ensures Scatter(n, at, vals)[at[a]] == vals[a]
    decreases |at|
  {
    if a < |at| - 1 {
      ScatterHits(n, at[..|at| - 1], vals[..|at| - 1], a);
    }
  }

  lemma {:induction false} ScatterCopies<T>(n: nat, at: seq<nat>, vals: seq<Option<T>>, x: T)
    requires |at| == |vals| && AllBelow(at, n) && Injective(at)
    ensures Copies(Scatter(n, at, vals), x, n) == Copies(vals, x, |vals|)
    decreases |at|
  {
    if at == [] {
      NoCopies(n, x, n);
    } else {
      var k := |at| - 1;
      ScatterCopies(n, at[..k], vals[..k], x);
      ScatterMisses(n, at[..k], vals[..k], at[k]);
      CopiesAfterWrite(Scatter(n, at[..k], vals[..k]), at[k], vals[k], x, n);
      CopiesOfPrefix(vals, k, x, k);
    }
  }

  lemma {:induction false} NoCopies<T>(n: nat, x: T, m: nat)
    requires m <= n
    ensures Copies(seq(n, _ => None), x, m) == 0
    decreases m
  {
    if m > 0 {
      NoCopies(n, x, m - 1);
    }
  }

  lemma ScatterConserves<T>(n: nat, at: seq<nat>, vals: seq<Option<T>>)
    requires |at| == |vals| && AllBelow(at, n) && Injective(at)
    ensures multiset(Somes(Scatter(n, at, vals))) == multiset(Somes(vals))
  {
    forall x: T ensures multiset(Somes(Scatter(n, at, vals)))[x] == multiset(Somes(vals))[x] {
      ScatterCopies(n, at, vals, x);
      CopiesAreCounted(Scatter(n, at, vals), x);
      CopiesAreCounted(vals, x);
    }
    SameCounts(multiset(Somes(Scatter(n, at, vals))), multiset(Somes(vals)));
  }

  lemma SameCounts<T>(a: multiset<T>, b: multiset<T>)
    requires forall x: T :: a[x] == b[x]
    ensures a == b
  {
    forall x: T | x in a || x in b ensures a[x] == b[x] {
    }
  }

  lemma {:induction false} SomesOfChosen<T>(s: seq<T>, out: seq<Option<nat>>)
    requires InRange(out, |s|)
    ensures AllBelow(Somes(out), |s|)
    ensures Somes(Chosen(s, out)) == At(s, Somes(out))
    decreases |out|
  {
    if out != [] {
      var n := |out| - 1;
      SomesOfChosen(s, out[..n]);
      ChosenBefore(s, out);
      ChosenLast(s, out, Somes(out[..n]));
    }
  }

  lemma ChosenBefore<T>(s: seq<T>, out: seq<Option<nat>>)
    requires out != [] && InRange(out, |s|)
    ensures Chosen(s, out)[..|out| - 1] == Chosen(s, out[..|out| - 1])
  {
  }

  lemma ChosenLast<T>(s: seq<T>, out: seq<Option<nat>>, before: seq<nat>)
    requires out != [] && InRange(out, |s|) && AllBelow(before, |s|)
    ensures var last := out[|out| - 1];
            last.Some? ==>
              && AllBelow(before + [last.value], |s|)
              && At(s, before + [last.value]) == At(s, before) + [s[last.value]]
  {
    var last := out[|out| - 1];
    if last.Some? {
      AtOne(s, last.value);
      AtAppend(s, before, [last.value]);
    }
  }

  /** Conservation through the sort, the dedupe and the index mapping: the descriptors are
      exactly those matched, left over and transparent, with multiplicity. */
  lemma Conservation(texs: seq<Texture>, descs: seq<TextureDescriptor>)
    ensures var d := Described(texs, descs);
            && multiset(Somes(d.perTexture)) + multiset(d.unplaced) + multiset(d.transparent) == multiset(descs)
            && |Somes(d.perTexture)| + |d.unplaced| + |d.transparent| == |descs|
  {
    JoinedConserves(texs, descs, Entries(descs));
    var d := Described(texs, descs);
    assert |multiset(Somes(d.perTexture)) + multiset(d.unplaced) + multiset(d.transparent)| == |multiset(descs)|;
  }

  lemma JoinedConserves(texs: seq<Texture>, descs: seq<TextureDescriptor>, entries: seq<Entry>)
    requires |entries| == |descs|
    ensures var d := Joined(texs, descs, entries);
            multiset(Somes(d.perTexture)) + multiset(d.unplaced) + multiset(d.transparent) == multiset(descs)
  {
    var sorted := Firsts(Refs(texs));
    var out := Pairing(KeysOf(texs, sorted), entries);
    FirstsExact(Refs(texs));
    ScatterConserves(|texs|, sorted, Chosen(descs, out));
    SomesOfChosen(descs, out);
    WalkConserves(descs, KeysOf(texs, sorted), entries);
  }

  // ---------------------------------------------------------------------------
  // Who is attributed
  // ---------------------------------------------------------------------------

  lemma {:induction false} ScatterFrom<T>(n: nat, at: seq<nat>, vals: seq<Option<T>>, x: nat) returns (a: nat)
    requires |at| == |vals| && AllBelow(at, n) && x < n && Scatter(n, at, vals)[x].Some?
    ensures a < |at| && at[a] == x && vals[a] == Scatter(n, at, vals)[x]
    decreases |at|
  {
    a := |at| - 1;
    if at[a] != x {
      a := ScatterFrom(n, at[..a], vals[..a], x);
    }
  }

  /** The descriptors handed out are those at the attributed indices. */
  lemma DescribedByIndex(texs: seq<Texture>, descs: seq<TextureDescriptor>, entries: seq<Entry>)
    requires |entries| == |descs|
    ensures InRange(Attributed(texs, entries), |descs|)
    ensures Joined(texs, descs, entries).perTexture == Chosen(descs, Attributed(texs, entries))
  {
    var sorted := Firsts(Refs(texs));
    ScatterOfChosen(|texs|, sorted, descs, Pairing(KeysOf(texs, sorted), entries));
  }

  lemma {:induction false} ScatterOfChosen<T>(n: nat, at: seq<nat>, s: seq<T>, out: seq<Option<nat>>)
    requires |at| == |out| && AllBelow(at, n) && InRange(out, |s|)
    ensures InRange(Scatter(n, at, out), |s|)
    ensures Scatter(n, at, Chosen(s, out)) == Chosen(s, Scatter(n, at, out))
    decreases |at|
  {
    if at != [] {
      var k := |at| - 1;
      ScatterOfChosen(n, at[..k], s, out[..k]);
      assert Chosen(s, out)[..k] == Chosen(s, out[..k]);
    }
  }

  /** Only the first texture with a ref is attributed, and only to a placeable descriptor of
      its own geometry and format. */
  lemma OnlyFirstAttributed(texs: seq<Texture>, entries: seq<Entry>, x: nat)
    requires x < |texs| && Attributed(texs, entries)[x].Some?
    ensures FirstOccurrence(Refs(texs), x)
    ensures Attributed(texs, entries)[x].value < |entries|
    ensures var e := entries[Attributed(texs, entries)[x].value];
            e.key == Key(texs[x].width, texs[x].height, texs[x].format) && !e.combined
  {
    var sorted := Firsts(Refs(texs));
    var keys := KeysOf(texs, sorted);
    FirstsExact(Refs(texs));
    var a := ScatterFrom(|texs|, sorted, Pairing(keys, entries), x);
    assert FirstOccurrence(Refs(texs), sorted[a]);
    PairingAscends(keys, entries);
    assert Pairing(keys, entries)[a] == PairOf(keys, entries, a);
  }

  lemma EntryExact(d: TextureDescriptor)
    ensures EntryOf(d).key == Key(d.width, d.height, d.format)
    ensures EntryOf(d).combined <==> d.format == 260
  {
    OneCombinedFormat(d.format);
  }

  /** Every descriptor handed out is one of the manifest's, goes to the first texture with its
      ref, has exactly that texture's width, height and format, and is not combined. */
  lemma AttributionSound(texs: seq<Texture>, descs: seq<TextureDescriptor>, x: nat)
    requires x < |texs| && Described(texs, descs).perTexture[x].Some?
    ensures var d := Described(texs, descs).perTexture[x].value;
            && d in descs && FirstOccurrence(Refs(texs), x)
            && d.width == texs[x].width && d.height == texs[x].height && d.format == texs[x].format
            && d.format != 260
  {
    var entries := Entries(descs);
    DescribedByIndex(texs, descs, entries);
    OnlyFirstAttributed(texs, entries, x);
    EntryExact(descs[Attributed(texs, entries)[x].value]);
  }

  /** The transparent descriptors are the combined ones and the unplaced ones are not. */
  lemma RestByFormat(texs: seq<Texture>, descs: seq<TextureDescriptor>)
    ensures forall d | d in Described(texs, descs).transparent :: d.format == 260
    ensures forall d | d in Described(texs, descs).unplaced :: d.format != 260
  {
    var entries := Entries(descs);
    forall x | 0 <= x < |descs| ensures entries[x].combined <==> descs[x].format == 260 {
      EntryExact(descs[x]);
    }
    RestOfJoined(texs, descs, entries);
  }

  lemma RestOfJoined(texs: seq<Texture>, descs: seq<TextureDescriptor>, entries: seq<Entry>)
    requires |entries| == |descs| && forall x | 0 <= x < |descs| :: entries[x].combined <==> descs[x].format == 260
    ensures forall d | d in Joined(texs, descs, entries).transparent :: d.format == 260
    ensures forall d | d in Joined(texs, descs, entries).unplaced :: d.format != 260
  {
    var keys := KeysOf(texs, Firsts(Refs(texs)));
    var transparent, unplaced := Transparent(entries), Unplaced(keys, entries);
    assert forall q | 0 <= q < |unplaced| :: unplaced[q] in Solid(entries);
  }

  /** Attributed indices strictly increase with the ref. */
  lemma AttributionAscends(texs: seq<Texture>, entries: seq<Entry>, x: nat, y: nat)
    requires x < |texs| && y < |texs| && texs[x].streamRef < texs[y].streamRef
    requires Attributed(texs, entries)[x].Some? && Attributed(texs, entries)[y].Some?
    ensures Attributed(texs, entries)[x].value < Attributed(texs, entries)[y].value
  {
    var refs := Refs(texs);
    var sorted := Firsts(refs);
    var keys := KeysOf(texs, sorted);
    FirstsExact(refs);
    var a := ScatterFrom(|texs|, sorted, Pairing(keys, entries), x);
    var b := ScatterFrom(|texs|, sorted, Pairing(keys, entries), y);
    KeptInOrder(refs, sorted, a, b);
    PairsInOrder(keys, entries, a, b);
  }

  lemma KeptInOrder(refs: seq<u64>, sorted: seq<nat>, a: nat, b: nat)
    requires IsFirsts(refs, sorted) && a < |sorted| && b < |sorted| && refs[sorted[a]] < refs[sorted[b]]
    ensures a < b
  {
  }

  lemma PairsInOrder(keys: seq<Key>, entries: seq<Entry>, a: nat, b: nat)
    requires a < b < |keys| && Pairing(keys, entries)[a].Some? && Pairing(keys, entries)[b].Some?
    ensures Pairing(keys, entries)[a].value < Pairing(keys, entries)[b].value
  {
    PairingAscends(keys, entries);
    assert Pairing(keys, entries)[a] == PairOf(keys, entries, a);
    assert Pairing(keys, entries)[b] == PairOf(keys, entries, b);
  }

  // ---------------------------------------------------------------------------
  // Order independence
  // ---------------------------------------------------------------------------

  ghost predicate Permutes(pi: seq<nat>, n: nat) {
    && |pi| == n && AllBelow(pi, n) && Injective(pi)
    && (forall x | 0 <= x < n :: Reaches(pi, x))
  }

  ghost predicate Reaches(pi: seq<nat>, x: nat) {
    exists y :: 0 <= y < |pi| && pi[y] == x
  }

  ghost predicate Distinct(refs: seq<u64>) {
    forall x, y | 0 <= x < y < |refs| :: refs[x] != refs[y]
  }

  /** Reordering the textures reorders what is kept of them. */
  lemma FirstsPermute(refs: seq<u64>, pi: seq<nat>)
    requires Permutes(pi, |refs|) && Distinct(refs) && Distinct(At(refs, pi))
    ensures At(pi, Firsts(At(refs, pi))) == Firsts(refs)
  {
    var moved := At(refs, pi);
    var kept := Firsts(moved);
    var back := At(pi, kept);
    FirstsExact(moved);
    FirstsExact(refs);
    assert IsFirsts(refs, back) by {
      forall x | 0 <= x < |refs| ensures Covers(refs, back, x) {
        MovedIsCovered(refs, pi, kept, x);
      }
    }
    FirstsUnique(refs, back, Firsts(refs));
  }

  lemma MovedIsCovered(refs: seq<u64>, pi: seq<nat>, kept: seq<nat>, x: nat)
    requires Permutes(pi, |refs|) && IsFirsts(At(refs, pi), kept) && x < |refs|
    ensures Covers(refs, At(pi, kept), x)
  {
    var moved := At(refs, pi);
    assert Reaches(pi, x);
    var y :| 0 <= y < |pi| && pi[y] == x;
    assert Covers(moved, kept, y);
    var a :| 0 <= a < |kept| && moved[kept[a]] == moved[y];
    assert refs[At(pi, kept)[a]] == refs[x];
  }

  /** Every texture with a ref of its own is kept. */
  lemma AllKept(refs: seq<u64>, x: nat) returns (a: nat)
    requires Distinct(refs) && x < |refs|
    ensures a < |Firsts(refs)| && Firsts(refs)[a] == x
  {
    a := FirstKeptAt(refs, x);
  }

  lemma FirstsInjective(refs: seq<u64>)
    ensures Injective(Firsts(refs))
  {
    FirstsExact(refs);
  }

  lemma StillDistinct(refs: seq<u64>, pi: seq<nat>)
    requires Permutes(pi, |refs|) && Distinct(refs)
    ensures Distinct(At(refs, pi))
  {
    forall x, y | 0 <= x < y < |pi| ensures refs[pi[x]] != refs[pi[y]] {
      assert pi[x] != pi[y];
    }
  }

  /** With distinct refs, fetching in another order permutes the attribution with the
      textures and changes neither of the other lists. */
  lemma OrderIndependent(texs: seq<Texture>, pi: seq<nat>, descs: seq<TextureDescriptor>, entries: seq<Entry>)
    requires |entries| == |descs| && Permutes(pi, |texs|)
    requires Distinct(Refs(texs))
    ensures var d, e := Joined(texs, descs, entries), Joined(At(texs, pi), descs, entries);
            e.perTexture == At(d.perTexture, pi) && e.unplaced == d.unplaced && e.transparent == d.transparent
  {
    var moved := At(texs, pi);
    var kept, keptMoved := Firsts(Refs(texs)), Firsts(Refs(moved));
    assert Refs(moved) == At(Refs(texs), pi);
    StillDistinct(Refs(texs), pi);
    FirstsPermute(Refs(texs), pi);
    var keys := KeysOf(texs, kept);
    assert KeysOf(moved, keptMoved) == keys;
    var vals := Chosen(descs, Pairing(keys, entries));
    ScattersAgree(texs, moved, pi, vals);
  }

  lemma ScattersAgree<T>(texs: seq<Texture>, moved: seq<Texture>, pi: seq<nat>, vals: seq<Option<T>>)
    requires Permutes(pi, |texs|) && moved == At(texs, pi)
    requires Distinct(Refs(texs)) && Distinct(Refs(moved))
    requires At(pi, Firsts(Refs(moved))) == Firsts(Refs(texs)) && |vals| == |Firsts(Refs(texs))|
    ensures Scatter(|moved|, Firsts(Refs(moved)), vals) == At(Scatter(|texs|, Firsts(Refs(texs)), vals), pi)
  {
    var kept, keptMoved := Firsts(Refs(texs)), Firsts(Refs(moved));
    FirstsInjective(Refs(texs));
    FirstsInjective(Refs(moved));
    forall x | 0 <= x < |moved|
      ensures Scatter(|moved|, keptMoved, vals)[x] == Scatter(|texs|, kept, vals)[pi[x]]
    {
      var a := AllKept(Refs(moved), x);
      ScatterHits(|moved|, keptMoved, vals, a);
      ScatterHits(|texs|, kept, vals, a);
    }
  }

  // ---------------------------------------------------------------------------
  // When the join gives every texture its true descriptor
  // ---------------------------------------------------------------------------

  /** The truth about each texture, in the order in which the walk meets them. */
  ghost function ByRef(texs: seq<Texture>, truth: seq<Option<nat>>): (r: seq<Option<nat>>)
    requires |truth| == |texs|
    ensures |r| == |Firsts(Refs(texs))|
  {
    At(truth, Firsts(Refs(texs)))
  }

  /** For a truth that pairs the first texture of each ref, in ref order, with placeable
      descriptors of their own geometry: the join attributes exactly that if and only if it
      gives nothing to a repeat, skips no such descriptor, and no undescribed texture has the
      geometry of the descriptor pending at its position. */
  lemma AttributionRecovered(texs: seq<Texture>, entries: seq<Entry>, truth: seq<Option<nat>>)
    requires |truth| == |texs|
    requires TruePairing(KeysOf(texs, Firsts(Refs(texs))), entries, ByRef(texs, truth))
    ensures var keys := KeysOf(texs, Firsts(Refs(texs)));
            var r := Ranked(keys, entries, ByRef(texs, truth));
            Attributed(texs, entries) == truth
            <==> NothingForRepeats(texs, truth) && NoneSkipped(r) && NoImpostor(keys, SolidKeys(entries), r)
  {
    var keys := KeysOf(texs, Firsts(Refs(texs)));
    ScatteredTruth(texs, Pairing(keys, entries), truth);
    TruthRecovered(keys, entries, ByRef(texs, truth));
  }

  ghost predicate NothingForRepeats(texs: seq<Texture>, truth: seq<Option<nat>>)
    requires |truth| == |texs|
  {
    forall x | 0 <= x < |truth| && !FirstOccurrence(Refs(texs), x) :: truth[x] == None
  }

  lemma ScatteredTruth(texs: seq<Texture>, out: seq<Option<nat>>, truth: seq<Option<nat>>)
    requires |truth| == |texs| && |out| == |Firsts(Refs(texs))|
    ensures Scatter(|texs|, Firsts(Refs(texs)), out) == truth
       <==> out == ByRef(texs, truth) && NothingForRepeats(texs, truth)
  {
    var refs := Refs(texs);
    var sorted := Firsts(refs);
    var scattered := Scatter(|texs|, sorted, out);
    FirstsInjective(refs);
    forall a | 0 <= a < |out| ensures scattered[sorted[a]] == out[a] {
      ScatterHits(|texs|, sorted, out, a);
    }
    forall x | 0 <= x < |texs| && !FirstOccurrence(refs, x) ensures scattered[x] == None {
      RepeatMissed(refs, x);
      ScatterMisses(|texs|, sorted, out, x);
    }
    if out == ByRef(texs, truth) && NothingForRepeats(texs, truth) {
      forall x | 0 <= x < |texs| ensures scattered[x] == truth[x] {
        if FirstOccurrence(refs, x) {
          var a := FirstKeptAt(refs, x);
          assert scattered[sorted[a]] == out[a];
        }
      }
    }
  }

  lemma RepeatMissed(refs: seq<u64>, x: nat)
    requires x < |refs| && !FirstOccurrence(refs, x)
    ensures forall a | 0 <= a < |Firsts(refs)| :: Firsts(refs)[a] != x
  {
    FirstsExact(refs);
    forall a | 0 <= a < |Firsts(refs)| ensures Firsts(refs)[a] != x {
      assert FirstOccurrence(refs, Firsts(refs)[a]);
    }
  }

  /** The first texture of a ref is kept. */
  lemma FirstKeptAt(refs: seq<u64>, x: nat) returns (a: nat)
    requires x < |refs| && FirstOccurrence(refs, x)
    ensures a < |Firsts(refs)| && Firsts(refs)[a] == x
  {
    FirstsExact(refs);
    var kept := Firsts(refs);
    assert Covers(refs, kept, x);
    a :| 0 <= a < |kept| && refs[kept[a]] == refs[x];
    assert FirstOccurrence(refs, kept[a]);
  }

  // ---------------------------------------------------------------------------
  // When a described texture is given any descriptor at all
  // ---------------------------------------------------------------------------

  /** No texture that the manifest describes is left without a descriptor. */
  ghost predicate NoneLeftOut(texs: seq<Texture>, entries: seq<Entry>, truth: seq<Option<nat>>)
    requires |truth| == |texs|
  {
    forall x | 0 <= x < |texs| && truth[x].Some? :: Attributed(texs, entries)[x].Some?
  }

  /** The documented promise that only an undescribed texture has no descriptor holds exactly
      when no repeat is described and every described texture is awaited where it comes: the
      longest run of placeable descriptors that embeds in the textures before it is followed by
      one of its own geometry. */
  lemma NoneLeftOutExactly(texs: seq<Texture>, entries: seq<Entry>, truth: seq<Option<nat>>)
    requires |truth| == |texs|
    ensures var keys := KeysOf(texs, Firsts(Refs(texs)));
            var byRef := ByRef(texs, truth);
            NoneLeftOut(texs, entries, truth)
            <==> && NothingForRepeats(texs, truth)
                 && forall a | 0 <= a < |byRef| && byRef[a].Some? :: Awaited(keys, SolidKeys(entries), a)
  {
    var keys := KeysOf(texs, Firsts(Refs(texs)));
    GivesAllExactly(keys, SolidKeys(entries), ByRef(texs, truth));
    LeftOutByRef(texs, entries, truth);
  }

  lemma LeftOutByRef(texs: seq<Texture>, entries: seq<Entry>, truth: seq<Option<nat>>)
    requires |truth| == |texs|
    ensures var keys := KeysOf(texs, Firsts(Refs(texs)));
            NoneLeftOut(texs, entries, truth)
            <==> NothingForRepeats(texs, truth) && GivesAll(keys, SolidKeys(entries), ByRef(texs, truth))
  {
    var refs := Refs(texs);
    var sorted := Firsts(refs);
    var keys := KeysOf(texs, sorted);
    var out := Pairing(keys, entries);
    FirstsInjective(refs);
    forall a | 0 <= a < |sorted|
      ensures Attributed(texs, entries)[sorted[a]].Some? <==> Assigned(keys, SolidKeys(entries), a).Some?
    {
      ScatterHits(|texs|, sorted, out, a);
      assert out[a] == PairOf(keys, entries, a);
    }
    forall x | 0 <= x < |texs| && !FirstOccurrence(refs, x) ensures Attributed(texs, entries)[x] == None {
      RepeatMissed(refs, x);
      ScatterMisses(|texs|, sorted, out, x);
    }
    if NothingForRepeats(texs, truth) && GivesAll(keys, SolidKeys(entries), ByRef(texs, truth)) {
      forall x | 0 <= x < |texs| && truth[x].Some? ensures Attributed(texs, entries)[x].Some? {
        var a := FirstKeptAt(refs, x);
        assert ByRef(texs, truth)[a] == truth[x];
      }
    }
  }

  /** The first placeable descriptor, if no texture has its geometry, blocks all behind it:
      no texture is given any descriptor. */
  lemma HeadOfLineBlocks(texs: seq<Texture>, descs: seq<TextureDescriptor>, entries: seq<Entry>)
    requires |entries| == |descs| && Solid(entries) != []
    requires forall t | t in texs :: Key(t.width, t.height, t.format) != SolidKeys(entries)[0]
    ensures Joined(texs, descs, entries)
         == Descriptions(seq(|texs|, _ => None), At(descs, Solid(entries)), At(descs, Transparent(entries)))
  {
    var sorted := Firsts(Refs(texs));
    NothingPaired(KeysOf(texs, sorted), entries);
    ScatterNothing(|texs|, sorted, descs, Pairing(KeysOf(texs, sorted), entries));
  }

  /** So textures with a descriptor of exactly their own geometry are left without one. */
  lemma DescribedLeftOut(texs: seq<Texture>, a: TextureDescriptor, b: TextureDescriptor)
    requires a.format != 260 && b.format != 260 && (a.width, a.height, a.format) != (b.width, b.height, b.format)
    requires texs != [] && forall t | t in texs :: (t.width, t.height, t.format) == (b.width, b.height, b.format)
    ensures Described(texs, [a, b]).perTexture == seq(|texs|, _ => None)
    ensures Described(texs, [a, b]).unplaced == [a, b]
  {
    var descs := [a, b];
    EntryExact(a);
    EntryExact(b);
    TwoBlocked(texs, descs, Entries(descs));
  }

  lemma TwoBlocked(texs: seq<Texture>, descs: seq<TextureDescriptor>, entries: seq<Entry>)
    requires |descs| == 2 == |entries| && !entries[0].combined && !entries[1].combined
    requires forall t | t in texs :: Key(t.width, t.height, t.format) != entries[0].key
    ensures Joined(texs, descs, entries).perTexture == seq(|texs|, _ => None)
    ensures Joined(texs, descs, entries).unplaced == descs
  {
    BothPlaceable(entries);
    HeadOfLineBlocks(texs, descs, entries);
    assert At(descs, [0, 1]) == descs;
  }

  lemma BothPlaceable(entries: seq<Entry>)
    requires |entries| == 2 && !entries[0].combined && !entries[1].combined
    ensures Solid(entries) == [0, 1] && SolidKeys(entries)[0] == entries[0].key
  {
    var one := entries[..1];
    assert one[..0] == [] && Solid(one) == [0];
    assert Solid(entries) == Solid(one) + [1];
  }

  // ---------------------------------------------------------------------------
  // What is left, in manifest order
  // ---------------------------------------------------------------------------

  lemma InSomes<T>(s: seq<Option<T>>, v: T)
    ensures v in Somes(s) <==> exists i :: 0 <= i < |s| && s[i] == Some(v)
  {
    CopiesAreCounted(s, v);
    AnyCopies(s, v, |s|);
    assert v in Somes(s) <==> v in multiset(Somes(s));
  }

  lemma {:induction false} AnyCopies<T>(s: seq<Option<T>>, v: T, n: nat)
    requires n <= |s|
    ensures Copies(s, v, n) > 0 <==> exists i :: 0 <= i < n && s[i] == Some(v)
    decreases n
  {
    if n > 0 {
      AnyCopies(s, v, n - 1);
      if s[n - 1] == Some(v) {
        assert Copies(s, v, n) > 0;
      }
    }
  }

  /** The unplaced indices are those of the placeable descriptors no key was paired with, in
      order. */
  lemma UnplacedExactly(keys: seq<Key>, descs: seq<Entry>, d: nat)
    ensures Ascending(Unplaced(keys, descs))
    ensures d in Unplaced(keys, descs)
       <==> && d < |descs| && !descs[d].combined
            && forall i | 0 <= i < |keys| :: Pairing(keys, descs)[i] != Some(d)
  {
    SolidExactly(descs);
    PairedThenUnplaced(keys, descs);
    InSomes(Pairing(keys, descs), d);
    AscendingSplit(Somes(Pairing(keys, descs)), Unplaced(keys, descs), Solid(descs), d);
  }

  lemma AscendingSplit(a: seq<nat>, b: seq<nat>, s: seq<nat>, d: nat)
    requires s == a + b && Ascending(s)
    ensures Ascending(b) && (d in b <==> d in s && d !in a)
  {
    forall p, q | 0 <= p < q < |b| ensures b[p] < b[q] {
      assert s[|a| + p] == b[p] && s[|a| + q] == b[q];
    }
    forall p, q | 0 <= p < |a| && 0 <= q < |b| ensures a[p] != b[q] {
      assert s[p] == a[p] && s[|a| + q] == b[q];
    }
  }

  /** The other two lists, in the order of the manifest: `transparent` is every descriptor of
      the combined format, `unplaced` every other one that no texture was given. */
  lemma RestInOrder(texs: seq<Texture>, descs: seq<TextureDescriptor>) returns (clear: seq<nat>, left: seq<nat>)
    ensures AllBelow(clear, |descs|) && Ascending(clear) && Described(texs, descs).transparent == At(descs, clear)
    ensures forall d: nat :: d in clear <==> d < |descs| && descs[d].format == 260
    ensures AllBelow(left, |descs|) && Ascending(left) && Described(texs, descs).unplaced == At(descs, left)
    ensures forall d: nat :: d in left <==>
              && d < |descs| && descs[d].format != 260
              && forall x | 0 <= x < |texs| :: Attributed(texs, Entries(descs))[x] != Some(d)
  {
    var entries := Entries(descs);
    forall d | 0 <= d < |descs| ensures entries[d].combined <==> descs[d].format == 260 {
      EntryExact(descs[d]);
    }
    clear, left := Transparent(entries), Unplaced(KeysOf(texs, Firsts(Refs(texs))), entries);
    TransparentExactly(entries);
    forall d: nat ensures LeftExactly(texs, entries, left, d) {
      LeftOf(texs, entries, left, d);
    }
    assert LeftExactly(texs, entries, left, 0);
    forall d: nat ensures d in left <==>
              && d < |descs| && descs[d].format != 260
              && forall x | 0 <= x < |texs| :: Attributed(texs, entries)[x] != Some(d)
    {
      assert LeftExactly(texs, entries, left, d);
    }
  }

  ghost predicate LeftExactly(texs: seq<Texture>, entries: seq<Entry>, left: seq<nat>, d: nat) {
    && Ascending(left)
    && (d in left <==>
          && d < |entries| && !entries[d].combined
          && forall x | 0 <= x < |texs| :: Attributed(texs, entries)[x] != Some(d))
  }

  lemma LeftOf(texs: seq<Texture>, entries: seq<Entry>, left: seq<nat>, d: nat)
    requires left == Unplaced(KeysOf(texs, Firsts(Refs(texs))), entries)
    ensures LeftExactly(texs, entries, left, d)
  {
    UnplacedExactly(KeysOf(texs, Firsts(Refs(texs))), entries, d);
    NoneGiven(texs, entries, d);
  }

  /** No texture is given `d` exactly when no key is paired with it. */
  lemma NoneGiven(texs: seq<Texture>, entries: seq<Entry>, d: nat)
    ensures var out := Pairing(KeysOf(texs, Firsts(Refs(texs))), entries);
            (forall x | 0 <= x < |texs| :: Attributed(texs, entries)[x] != Some(d))
            <==> forall a | 0 <= a < |out| :: out[a] != Some(d)
  {
    var sorted := Firsts(Refs(texs));
    var out := Pairing(KeysOf(texs, sorted), entries);
    FirstsInjective(Refs(texs));
    if a :| 0 <= a < |out| && out[a] == Some(d) {
      ScatterHits(|texs|, sorted, out, a);
      assert Attributed(texs, entries)[sorted[a]] == Some(d);
    }
    if x :| 0 <= x < |texs| && Attributed(texs, entries)[x] == Some(d) {
      var a := ScatterFrom(|texs|, sorted, out, x);
      assert out[a] == Some(d);
    }
  }
}
