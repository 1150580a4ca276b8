/** The parameter tree of src/xpr_ups.c as a value: which entries are in it, and who hangs under whom.
    The heap in Ups.dfy is proved to be this tree; the paths in UpsPath.dfy are read off it. */
module UpsTree {
  import opened Common

  predicate IsSep(c: char) { c == '/' || c == '.' }

  /** A name a path can spell: not empty and free of separators. */
  predicate GoodName(s: string) {
    s != "" && forall i :: 0 <= i < |s| ==> !IsSep(s[i])
  }

  /** A setting or a directory of settings. `parent`, `prev`, `next` and `childs` are its links. */
  class Entry {
    const name: string
    const root: Option<string>
    const dir: bool
    const override: bool
    var registered: bool
    var parent: Entry?
    var prev: Entry?
    var next: Entry?
    var childs: Entry?

    constructor (name: string, root: Option<string>, dir: bool, override: bool)
      ensures this.name == name && this.root == root && this.dir == dir && this.override == override
      ensures !registered && parent == null && prev == null && next == null && childs == null
    {
      this.name, this.root, this.dir, this.override := name, root, dir, override;
      registered, parent, prev, next, childs := false, null, null, null, null;
    }
  }

  // ----- sibling chains

  ghost function First(s: seq<Entry>): Entry? { if s == [] then null else s[0] }

  ghost function Last(s: seq<Entry>): Entry? { if s == [] then null else s[|s| - 1] }

  /** The sibling behind x. */
  ghost function After(s: seq<Entry>, x: Entry): Entry? {
    if |s| < 2 then null else if s[0] == x then s[1] else After(s[1..], x)
  }

  /** The sibling in front of x. */
  ghost function Before(s: seq<Entry>, x: Entry): Entry? {
    if |s| < 2 then null else if s[1] == x then s[0] else Before(s[1..], x)
  }

  /** The siblings that stay when `gone` go. */
  ghost function Keep(s: seq<Entry>, gone: set<Entry>): seq<Entry> {
    if s == [] then [] else (if s[0] in gone then [] else [s[0]]) + Keep(s[1..], gone)
  }

  /** The sibling of that name. */
  ghost function Find(s: seq<Entry>, name: string): Entry? {
    if s == [] then null else if s[0].name == name then s[0] else Find(s[1..], name)
  }

  /** Siblings have different names, so they differ. */
  ghost predicate Siblings(s: seq<Entry>) {
    s == [] || (Find(s[1..], s[0].name) == null && Siblings(s[1..]))
  }

  lemma {:induction false} FindFacts(s: seq<Entry>, name: string)
    ensures var r := Find(s, name); r != null ==> r in s && r.name == name
    ensures Find(s, name) == null <==> forall x :: x in s ==> x.name != name
  {
    if s != [] { FindFacts(s[1..], name); }
  }

  /** Looking a sibling's name up gives that sibling. */
  lemma {:induction false} FindIs(s: seq<Entry>, x: Entry)
    requires Siblings(s) && x in s
    ensures Find(s, x.name) == x
  {
    if x != s[0] {
      FindFacts(s[1..], s[0].name);
      FindIs(s[1..], x);
    }
  }

  lemma {:induction false} SiblingsDistinct(s: seq<Entry>)
    requires Siblings(s)
    ensures forall i, j :: 0 <= i < j < |s| ==> s[i] != s[j]
  {
    if s != [] {
      SiblingsDistinct(s[1..]);
      FindFacts(s[1..], s[0].name);
      assert forall i :: 0 < i < |s| ==> s[i] in s[1..];
      assert forall i :: 0 < i < |s| ==> s[i] == s[1..][i - 1];
    }
  }

  lemma {:induction false} AfterAt(s: seq<Entry>, i: nat)
    requires Siblings(s) && i < |s|
    ensures After(s, s[i]) == if i + 1 < |s| then s[i + 1] else null
    ensures Before(s, s[i]) == if i == 0 then null else s[i - 1]
  {
    FindFacts(s[1..], s[0].name);
    if i > 0 {
      AfterAt(s[1..], i - 1);
      SiblingsDistinct(s);
      if i > 1 { assert s[1..][i - 2] == s[i - 1]; }
    } else if |s| > 1 {
      NotBehind(s[1..], s[0]);
    }
  }

  lemma {:induction false} NotBehind(s: seq<Entry>, x: Entry)
    requires x !in s
    ensures Before(s, x) == null && After(s, x) == null
  {
    if |s| > 1 { NotBehind(s[1..], x); }
  }

  lemma {:induction false} KeepIn(s: seq<Entry>, gone: set<Entry>, x: Entry)
    ensures x in Keep(s, gone) <==> x in s && x !in gone
  {
    if s != [] { KeepIn(s[1..], gone, x); }
  }

  lemma {:induction false} KeepAll(s: seq<Entry>, gone: set<Entry>)
    requires forall x :: x in s ==> x !in gone
    ensures Keep(s, gone) == s
  {
    if s != [] {
      KeepAll(s[1..], gone);
      assert s == [s[0]] + s[1..];
    }
  }

  lemma {:induction false} KeepSiblings(s: seq<Entry>, gone: set<Entry>)
    requires Siblings(s)
    ensures Siblings(Keep(s, gone))
  {
    if s != [] {
      KeepSiblings(s[1..], gone);
      var k := Keep(s[1..], gone);
      FindFacts(s[1..], s[0].name);
      FindFacts(k, s[0].name);
      forall x | x in k ensures x in s[1..] { KeepIn(s[1..], gone, x); }
      if s[0] in gone {
        assert Keep(s, gone) == k;
      } else {
        assert Keep(s, gone) == [s[0]] + k && ([s[0]] + k)[1..] == k;
      }
    }
  }

  lemma {:induction false} KeepKeep(s: seq<Entry>, a: set<Entry>, b: set<Entry>)
    ensures Keep(Keep(s, a), b) == Keep(s, a + b)
  {
    if s != [] {
      KeepKeep(s[1..], a, b);
      var k := Keep(s[1..], a);
      if s[0] in a {
        assert Keep(s, a) == k;
      } else {
        assert Keep(s, a) == [s[0]] + k && ([s[0]] + k)[1..] == k;
      }
    }
  }

  lemma {:induction false} KeepOne(s: seq<Entry>, i: nat)
    requires Siblings(s) && i < |s|
    ensures Keep(s, {s[i]}) == s[..i] + s[i + 1..]
  {
    FindFacts(s[1..], s[0].name);
    if i == 0 {
      KeepAll(s[1..], {s[0]});
    } else {
      var r := s[1..];
      assert r[i - 1] == s[i] && r[i - 1] in r;
      KeepOne(r, i - 1);
      HeadSlices(s, i);
    }
  }

  lemma HeadSlices(s: seq<Entry>, i: nat)
    requires 0 < i < |s|
    ensures [s[0]] + (s[1..][..i - 1] + s[1..][i..]) == s[..i] + s[i + 1..]
  {
  }

  /** Taking one entry out relinks exactly its two neighbours. */
  lemma KeepLinks(s: seq<Entry>, e: Entry, x: Entry)
    requires Siblings(s) && e in s && x in s && x != e
    ensures var r := Keep(s, {e});
      && After(r, x) == (if x == Before(s, e) then After(s, e) else After(s, x))
      && Before(r, x) == (if x == After(s, e) then Before(s, e) else Before(s, x))
  {
    var i :| 0 <= i < |s| && s[i] == e;
    var j :| 0 <= j < |s| && s[j] == x;
    KeepOne(s, i);
    KeepSiblings(s, {e});
    AfterAt(s, i);
    AfterAt(s, j);
    SiblingsDistinct(s);
    AfterOut(s, Keep(s, {e}), i, j);
  }

  lemma {:induction false} SnocSiblings(s: seq<Entry>, e: Entry)
    requires Siblings(s) && Find(s, e.name) == null
    ensures Siblings(s + [e])
  {
    if s != [] {
      SnocSiblings(s[1..], e);
      assert (s + [e])[1..] == s[1..] + [e];
      FindFacts(s[1..], s[0].name);
      FindFacts(s[1..] + [e], s[0].name);
    }
  }

  lemma AfterOut(s: seq<Entry>, r: seq<Entry>, i: nat, j: nat)
    requires Siblings(r) && i < |s| && j < |s| && i != j && r == s[..i] + s[i + 1..]
    ensures After(r, s[j]) ==
      if j + 1 == i then (if i + 1 < |s| then s[i + 1] else null)
      else if j + 1 < |s| then s[j + 1] else null
    ensures Before(r, s[j]) ==
      if j == i + 1 then (if i > 0 then s[i - 1] else null)
      else if j > 0 then s[j - 1] else null
  {
    AfterAt(r, if j < i then j else j - 1);
  }

  /** Appending relinks exactly the last sibling. */
  lemma {:induction false} AppendLinks(s: seq<Entry>, e: Entry, x: Entry)
    requires Siblings(s) && Find(s, e.name) == null && (x in s || x == e)
    ensures After(s + [e], x) == if x == e then null else if x == Last(s) then e else After(s, x)
    ensures Before(s + [e], x) == if x == e then Last(s) else Before(s, x)
  {
    var r := s + [e];
    FindFacts(s, e.name);
    SnocSiblings(s, e);
    if x == e {
      AfterAt(r, |s|);
    } else {
      var i :| 0 <= i < |s| && s[i] == x;
      AfterAt(r, i);
      AfterAt(s, i);
      SiblingsDistinct(s);
    }
  }

  // ----- the tree

  /** `kids` lists the children of every entry of the tree, `up` and `depth` are the parent and the level. */
  datatype Tree = Tree(kids: map<Entry, seq<Entry>>, up: map<Entry, Entry>, depth: map<Entry, nat>)

  ghost predicate Rooted(t: Tree, root: Entry) {
    && root in t.kids && root !in t.up
    && t.depth.Keys == t.kids.Keys
    && (forall x :: x in t.kids ==> x == root || x in t.up)
    && (forall x :: x in t.up ==> x in t.kids && GoodName(x.name))
  }

  /** Every entry but the root is a child of its parent, one level down. */
  ghost predicate Upward(t: Tree) {
    forall x {:trigger t.up[x]} :: x in t.up ==>
      && t.up[x] in t.kids && x in t.kids[t.up[x]]
      && x in t.depth && t.up[x] in t.depth && t.depth[x] == t.depth[t.up[x]] + 1
  }

  /** Every child has its parent as parent. */
  ghost predicate Downward(t: Tree) {
    forall p, c {:trigger c in t.kids[p]} :: p in t.kids && c in t.kids[p] ==> c in t.up && t.up[c] == p
  }

  ghost predicate NamesDiffer(t: Tree) {
    forall p {:trigger Siblings(t.kids[p])} :: p in t.kids ==> Siblings(t.kids[p])
  }

  /** A tree with this root in which siblings have different names. */
  ghost predicate WellFormed(t: Tree, root: Entry) {
    Rooted(t, root) && Upward(t) && Downward(t) && NamesDiffer(t)
  }

  ghost function Bare(root: Entry): Tree {
    Tree(map[root := []], map[], map[root := 0])
  }

  /** Hang e under p, behind its other children. */
  ghost function Grow(t: Tree, p: Entry, e: Entry): Tree
    requires p in t.kids && p in t.depth
  {
    Tree(t.kids[p := t.kids[p] + [e]][e := []], t.up[e := p], t.depth[e := t.depth[p] + 1])
  }

  lemma GrowKeeps(t: Tree, root: Entry, p: Entry, e: Entry)
    requires WellFormed(t, root) && p in t.kids && e !in t.kids && GoodName(e.name)
    requires Find(t.kids[p], e.name) == null
    ensures WellFormed(Grow(t, p, e), root)
  {
    GrowUpward(t, root, p, e);
    GrowDownward(t, root, p, e);
    SnocSiblings(t.kids[p], e);
  }

  lemma GrowUpward(t: Tree, root: Entry, p: Entry, e: Entry)
    requires WellFormed(t, root) && p in t.kids && e !in t.kids
    ensures Upward(Grow(t, p, e))
  {
    forall x | x in t.up || x == e
      ensures var r := Grow(t, p, e); r.up[x] in r.kids && x in r.kids[r.up[x]] && r.depth[x] == r.depth[r.up[x]] + 1
    {
      GrowUp(t, root, p, e, x);
    }
  }

  lemma GrowDownward(t: Tree, root: Entry, p: Entry, e: Entry)
    requires WellFormed(t, root) && p in t.kids && e !in t.kids
    ensures Downward(Grow(t, p, e))
  {
    var r := Grow(t, p, e);
    forall q, c {:trigger c in r.kids[q]} | q in r.kids && c in r.kids[q] ensures c in r.up && r.up[c] == q {
      GrowKid(t, root, p, e, q, c);
    }
  }

  lemma GrowUp(t: Tree, root: Entry, p: Entry, e: Entry, x: Entry)
    requires WellFormed(t, root) && p in t.kids && e !in t.kids && (x in t.up || x == e)
    ensures var r := Grow(t, p, e); r.up[x] in r.kids && x in r.kids[r.up[x]] && r.depth[x] == r.depth[r.up[x]] + 1
  {
    if x != e { assert t.up[x] in t.kids; }
  }

  lemma GrowKid(t: Tree, root: Entry, p: Entry, e: Entry, q: Entry, c: Entry)
    requires WellFormed(t, root) && p in t.kids && e !in t.kids
    requires var r := Grow(t, p, e); q in r.kids && c in r.kids[q]
    ensures var r := Grow(t, p, e); c in r.up && r.up[c] == q
  {
    if q != e {
      if q != p {
        assert c in t.kids[q];
      } else if c != e {
        assert c in t.kids[q];
      }
    }
  }

  /** The tree without the entries `gone`. */
  ghost function Cut(t: Tree, gone: set<Entry>): Tree {
    Tree(map x | x in t.kids && x !in gone :: Keep(t.kids[x], gone),
         map x | x in t.up && x !in gone :: t.up[x],
         map x | x in t.depth && x !in gone :: t.depth[x])
  }

  /** No entry stays whose parent goes. */
  ghost predicate Closed(t: Tree, gone: set<Entry>) {
    forall x :: x in t.up && t.up[x] in gone ==> x in gone
  }

  lemma CutKeeps(t: Tree, root: Entry, gone: set<Entry>)
    requires WellFormed(t, root) && Closed(t, gone) && root !in gone
    ensures WellFormed(Cut(t, gone), root)
  {
    CutUpward(t, root, gone);
    CutDownward(t, root, gone);
    CutNames(t, root, gone);
  }

  lemma CutUpward(t: Tree, root: Entry, gone: set<Entry>)
    requires WellFormed(t, root) && Closed(t, gone)
    ensures Upward(Cut(t, gone))
  {
    forall x | x in t.up && x !in gone ensures t.up[x] !in gone && x in Keep(t.kids[t.up[x]], gone) {
      KeepIn(t.kids[t.up[x]], gone, x);
    }
  }

  lemma CutDownward(t: Tree, root: Entry, gone: set<Entry>)
    requires WellFormed(t, root)
    ensures Downward(Cut(t, gone))
  {
    var r := Cut(t, gone);
    forall p, c {:trigger c in r.kids[p]} | p in r.kids && c in r.kids[p] ensures c in r.up && r.up[c] == p {
      CutKid(t, root, gone, p, c);
    }
  }

  lemma CutNames(t: Tree, root: Entry, gone: set<Entry>)
    requires WellFormed(t, root)
    ensures NamesDiffer(Cut(t, gone))
  {
    forall p | p in t.kids ensures Siblings(Keep(t.kids[p], gone)) { KeepSiblings(t.kids[p], gone); }
  }

  lemma CutKid(t: Tree, root: Entry, gone: set<Entry>, p: Entry, c: Entry)
    requires WellFormed(t, root)
    requires var r := Cut(t, gone); p in r.kids && c in r.kids[p]
    ensures var r := Cut(t, gone); c in r.up && r.up[c] == p
  {
    KeepIn(t.kids[p], gone, c);
    KidUp(t, p, c);
  }

  lemma KidUp(t: Tree, p: Entry, c: Entry)
    requires Downward(t) && p in t.kids && c in t.kids[p]
    ensures c in t.up && t.up[c] == p
  {
  }

  lemma CutCut(t: Tree, a: set<Entry>, b: set<Entry>)
    ensures Cut(Cut(t, a), b) == Cut(t, a + b)
  {
    forall p | p in t.kids ensures Keep(Keep(t.kids[p], a), b) == Keep(t.kids[p], a + b) { KeepKeep(t.kids[p], a, b); }
  }

  lemma CutNothing(t: Tree)
    ensures Cut(t, {}) == t
  {
    forall p | p in t.kids ensures Keep(t.kids[p], {}) == t.kids[p] { KeepAll(t.kids[p], {}); }
  }

  // ----- subtrees

  /** Is x the entry e or below it? */
  ghost predicate Under(t: Tree, root: Entry, e: Entry, x: Entry)
    requires WellFormed(t, root) && x in t.kids
    decreases t.depth[x]
  {
    x == e || (x in t.up && Under(t, root, e, t.up[x]))
  }

  ghost function Subtree(t: Tree, root: Entry, e: Entry): set<Entry>
    requires WellFormed(t, root)
  {
    set x | x in t.kids && Under(t, root, e, x)
  }

  ghost function Subtrees(t: Tree, root: Entry, es: seq<Entry>): set<Entry>
    requires WellFormed(t, root)
  {
    if es == [] then {} else Subtree(t, root, es[0]) + Subtrees(t, root, es[1..])
  }

  lemma {:induction false} UnderDepth(t: Tree, root: Entry, e: Entry, x: Entry)
    requires WellFormed(t, root) && e in t.kids && x in t.kids && Under(t, root, e, x)
    ensures t.depth[e] <= t.depth[x] && (x == root ==> e == root)
    decreases t.depth[x]
  {
    if x != e { UnderDepth(t, root, e, t.up[x]); }
  }

  /** A subtree takes all below it along, and takes the root only when it is the whole tree. */
  lemma SubtreeFacts(t: Tree, root: Entry, e: Entry)
    requires WellFormed(t, root) && e in t.kids
    ensures Closed(t, Subtree(t, root, e)) && e in Subtree(t, root, e)
    ensures root in Subtree(t, root, e) ==> e == root
    ensures forall x :: x in Subtree(t, root, e) ==> t.depth[e] <= t.depth[x]
  {
    forall x | x in t.kids && Under(t, root, e, x) ensures t.depth[e] <= t.depth[x] && (x == root ==> e == root) {
      UnderDepth(t, root, e, x);
    }
  }

  /** Below an entry are its children with what is below them. */
  lemma SubtreeIsKids(t: Tree, root: Entry, e: Entry)
    requires WellFormed(t, root) && e in t.kids
    ensures Subtree(t, root, e) == {e} + Subtrees(t, root, t.kids[e])
  {
    forall x | x in t.kids ensures x in Subtree(t, root, e) <==> x == e || x in Subtrees(t, root, t.kids[e]) {
      SubtreesIs(t, root, t.kids[e], x);
      UnderKid(t, root, e, x);
    }
    forall x | x in Subtrees(t, root, t.kids[e]) ensures x in t.kids { SubtreesIs(t, root, t.kids[e], x); }
  }

  lemma {:induction false} SubtreesIs(t: Tree, root: Entry, es: seq<Entry>, x: Entry)
    requires WellFormed(t, root)
    ensures x in Subtrees(t, root, es) ==> x in t.kids && exists c :: c in es && Under(t, root, c, x)
    ensures forall c :: c in es && x in t.kids && Under(t, root, c, x) ==> x in Subtrees(t, root, es)
  {
    if es != [] { SubtreesIs(t, root, es[1..], x); }
  }

  /** What is below an entry, other than itself, is below one of its children, and the other way round. */
  lemma {:induction false} UnderKid(t: Tree, root: Entry, e: Entry, x: Entry)
    requires WellFormed(t, root) && e in t.kids && x in t.kids
    ensures Under(t, root, e, x) && x != e ==> exists c :: c in t.kids[e] && Under(t, root, c, x)
    ensures forall c :: c in t.kids[e] && Under(t, root, c, x) ==> Under(t, root, e, x)
    decreases t.depth[x]
  {
    if x in t.up {
      UnderKid(t, root, e, t.up[x]);
      if t.up[x] == e { assert Under(t, root, x, x); }
    }
  }

  /** Cutting other entries leaves a subtree's rest as it was. */
  lemma SubtreeOfCut(t: Tree, root: Entry, gone: set<Entry>, e: Entry)
    requires WellFormed(t, root) && Closed(t, gone) && root !in gone && e in t.kids && e !in gone
    ensures WellFormed(Cut(t, gone), root)
    ensures Subtree(Cut(t, gone), root, e) == Subtree(t, root, e) - gone
  {
    CutKeeps(t, root, gone);
    forall x | x in t.kids && x !in gone ensures Under(Cut(t, gone), root, e, x) == Under(t, root, e, x) {
      UnderOfCut(t, root, gone, e, x);
    }
  }

  lemma {:induction false} UnderOfCut(t: Tree, root: Entry, gone: set<Entry>, e: Entry, x: Entry)
    requires WellFormed(t, root) && Closed(t, gone) && root !in gone && e !in gone && x in t.kids && x !in gone
    requires WellFormed(Cut(t, gone), root)
    ensures Under(Cut(t, gone), root, e, x) == Under(t, root, e, x)
    decreases t.depth[x]
  {
    if x in t.up { UnderOfCut(t, root, gone, e, t.up[x]); }
  }

  // ----- links

  ghost function NextOf(t: Tree, x: Entry): Entry?
    requires x in t.up && t.up[x] in t.kids
  {
    After(t.kids[t.up[x]], x)
  }

  ghost function PrevOf(t: Tree, x: Entry): Entry?
    requires x in t.up && t.up[x] in t.kids
  {
    Before(t.kids[t.up[x]], x)
  }

  /** A neighbour is a sibling. */
  lemma {:induction false} NeighboursIn(s: seq<Entry>, x: Entry)
    ensures After(s, x) != null ==> After(s, x) in s
    ensures Before(s, x) != null ==> Before(s, x) in s
  {
    if |s| > 1 { NeighboursIn(s[1..], x); }
  }

  /** What cutting a childless entry does to the links of the others. */
  lemma CutLeafLinks(t: Tree, root: Entry, e: Entry, x: Entry)
    requires WellFormed(t, root) && e in t.up && t.kids[e] == [] && x in t.up && x != e
    ensures var r := Cut(t, {e});
      && WellFormed(r, root) && x in r.up && r.up[x] == t.up[x]
      && NextOf(r, x) == (if x == PrevOf(t, e) then NextOf(t, e) else NextOf(t, x))
      && PrevOf(r, x) == (if x == NextOf(t, e) then PrevOf(t, e) else PrevOf(t, x))
  {
    CutKeeps(t, root, {e});
    var p := t.up[x];
    if p == t.up[e] {
      KeepLinks(t.kids[p], e, x);
    } else {
      KeepAll(t.kids[p], {e});
      NeighboursIn(t.kids[t.up[e]], e);
    }
  }

  lemma CutLeafKids(t: Tree, root: Entry, e: Entry, p: Entry)
    requires WellFormed(t, root) && e in t.up && t.kids[e] == [] && p in t.kids && p != e
    ensures var r := Cut(t, {e});
      && p in r.kids
      && First(r.kids[p]) == if p == t.up[e] && PrevOf(t, e) == null then NextOf(t, e) else First(t.kids[p])
  {
    var s := t.kids[p];
    if p == t.up[e] {
      FirstOfKeep(s, e);
    } else {
      KeepAll(s, {e});
    }
  }

  lemma FirstOfKeep(s: seq<Entry>, e: Entry)
    requires Siblings(s) && e in s
    ensures First(Keep(s, {e})) == if Before(s, e) == null then After(s, e) else First(s)
  {
    var i :| 0 <= i < |s| && s[i] == e;
    KeepOne(s, i);
    AfterAt(s, i);
  }

  /** What hanging e under p does to the links. */
  lemma GrowLinks(t: Tree, root: Entry, p: Entry, e: Entry, x: Entry)
    requires WellFormed(t, root) && p in t.kids && e !in t.kids && GoodName(e.name) && Find(t.kids[p], e.name) == null
    requires x in t.up || x == e
    ensures var r := Grow(t, p, e);
      && x in r.up && r.up[x] == (if x == e then p else t.up[x]) && r.up[x] in r.kids
      && NextOf(r, x) == (if x == e then null else if x == Last(t.kids[p]) then e else NextOf(t, x))
      && PrevOf(r, x) == (if x == e then Last(t.kids[p]) else PrevOf(t, x))
  {
    GrowUp(t, root, p, e, x);
    var s := t.kids[p];
    if x == e || t.up[x] == p {
      AppendLinks(s, e, x);
    } else if s != [] {
      KidUp(t, p, s[|s| - 1]);
    }
  }

  // ----- taking a subtree out, child by child from the last

  /** The tree without e and all below it. */
  ghost function Pruned(t: Tree, root: Entry, e: Entry): Tree
    requires WellFormed(t, root)
  {
    Cut(t, Subtree(t, root, e))
  }

  /** The children of p from the i-th on are gone, with all below them. */
  ghost function PrunedFrom(t: Tree, root: Entry, p: Entry, i: nat): Tree
    requires WellFormed(t, root) && p in t.kids && i <= |t.kids[p]|
  {
    Cut(t, Subtrees(t, root, t.kids[p][i..]))
  }

  lemma {:induction false} SubtreesClosed(t: Tree, root: Entry, p: Entry, es: seq<Entry>)
    requires WellFormed(t, root) && p in t.kids && forall c :: c in es ==> c in t.kids[p]
    ensures Closed(t, Subtrees(t, root, es)) && root !in Subtrees(t, root, es) && p !in Subtrees(t, root, es)
    ensures forall c :: c in es ==> c in Subtrees(t, root, es)
    ensures forall x :: x in Subtrees(t, root, es) ==> x in t.kids
  {
    if es != [] {
      KidUp(t, p, es[0]);
      SubtreeFacts(t, root, es[0]);
      SubtreesClosed(t, root, p, es[1..]);
    }
  }

  /** Subtrees of different siblings share nothing. */
  lemma {:induction false} UnderOneKid(t: Tree, root: Entry, p: Entry, c: Entry, d: Entry, x: Entry)
    requires WellFormed(t, root) && p in t.kids && c in t.kids[p] && d in t.kids[p] && x in t.kids
    requires Under(t, root, c, x) && Under(t, root, d, x)
    ensures c == d
    decreases t.depth[x]
  {
    KidUp(t, p, c);
    KidUp(t, p, d);
    if x == c {
      UnderDepth(t, root, d, x);
      if x != d { UnderDepth(t, root, d, p); }
    } else if x == d {
      UnderDepth(t, root, c, p);
    } else {
      UnderOneKid(t, root, p, c, d, t.up[x]);
    }
  }

  /** While children are taken out from the last, the first ones stay in place. */
  lemma PrunedFromKids(t: Tree, root: Entry, p: Entry, i: nat)
    requires WellFormed(t, root) && p in t.kids && i <= |t.kids[p]|
    ensures var r := PrunedFrom(t, root, p, i); WellFormed(r, root) && p in r.kids && r.kids[p] == t.kids[p][..i]
    ensures forall x :: x in PrunedFrom(t, root, p, i).kids ==> x in t.kids
  {
    var cs := t.kids[p];
    var gone := Subtrees(t, root, cs[i..]);
    SubtreesClosed(t, root, p, cs[i..]);
    CutKeeps(t, root, gone);
    SiblingsDistinct(cs);
    forall c | c in cs[..i] ensures c !in gone {
      KidUp(t, p, c);
      SubtreesIs(t, root, cs[i..], c);
      forall d | d in cs[i..] ensures !Under(t, root, d, c) { NotUnderSibling(t, root, p, c, d); }
    }
    KeepPrefix(cs, i, gone);
  }

  lemma NotUnderSibling(t: Tree, root: Entry, p: Entry, c: Entry, d: Entry)
    requires WellFormed(t, root) && p in t.kids && c in t.kids[p] && d in t.kids[p] && c != d && c in t.kids
    ensures !Under(t, root, d, c)
  {
    if Under(t, root, d, c) { UnderOneKid(t, root, p, c, d, c); }
  }

  lemma {:induction false} KeepPrefix(s: seq<Entry>, i: nat, gone: set<Entry>)
    requires i <= |s| && (forall c :: c in s[..i] ==> c !in gone) && (forall c :: c in s[i..] ==> c in gone)
    ensures Keep(s, gone) == s[..i]
  {
    if s != [] {
      if i > 0 {
        assert s[0] in s[..i] && s[..i] == [s[0]] + s[1..][..i - 1] && s[1..][i - 1..] == s[i..];
        KeepPrefix(s[1..], i - 1, gone);
      } else {
        assert s[0] in s[0..] && s[1..][..0] == [];
        KeepPrefix(s[1..], 0, gone);
      }
    }
  }

  lemma LastLeft(t: Tree, root: Entry, p: Entry, i: nat)
    requires WellFormed(t, root) && p in t.kids && 0 < i <= |t.kids[p]|
    ensures p in PrunedFrom(t, root, p, i).kids
    ensures var cs := PrunedFrom(t, root, p, i).kids[p];
      |cs| == i && cs[i - 1] == t.kids[p][i - 1] && cs[..i - 1] == t.kids[p][..i - 1]
  {
    PrunedFromKids(t, root, p, i);
  }

  /** One more child goes. */
  lemma PruneChild(t: Tree, root: Entry, p: Entry, i: nat)
    requires WellFormed(t, root) && p in t.kids && 0 < i <= |t.kids[p]|
    ensures var r, c := PrunedFrom(t, root, p, i), t.kids[p][i - 1];
      && WellFormed(r, root) && c in r.up
      && Pruned(r, root, c) == PrunedFrom(t, root, p, i - 1)
      && Subtree(r, root, c) < Subtree(t, root, p)
  {
    var cs := t.kids[p];
    var c, gone := cs[i - 1], Subtrees(t, root, cs[i..]);
    var r := PrunedFrom(t, root, p, i);
    PrunedFromKids(t, root, p, i);
    assert r.kids[p][i - 1] == c;
    KidUp(r, p, c);
    KidUp(t, p, c);
    SubtreesClosed(t, root, p, cs[i..]);
    SubtreeOfCut(t, root, gone, c);
    CutMore(t, root, cs, i);
    SubtreeShrinks(t, root, p, c);
  }

  lemma CutMore(t: Tree, root: Entry, cs: seq<Entry>, i: nat)
    requires WellFormed(t, root) && 0 < i <= |cs|
    ensures var gone := Subtrees(t, root, cs[i..]);
      Cut(Cut(t, gone), Subtree(t, root, cs[i - 1]) - gone) == Cut(t, Subtrees(t, root, cs[i - 1..]))
  {
    var gone := Subtrees(t, root, cs[i..]);
    CutCut(t, gone, Subtree(t, root, cs[i - 1]) - gone);
    assert cs[i - 1..][1..] == cs[i..];
    assert gone + (Subtree(t, root, cs[i - 1]) - gone) == Subtrees(t, root, cs[i - 1..]);
  }

  lemma SubtreeShrinks(t: Tree, root: Entry, p: Entry, c: Entry)
    requires WellFormed(t, root) && p in t.kids && c in t.kids[p]
    ensures Subtree(t, root, c) < Subtree(t, root, p)
  {
    KidUp(t, p, c);
    SubtreeFacts(t, root, c);
    SubtreeFacts(t, root, p);
    forall x | x in t.kids && Under(t, root, c, x) ensures Under(t, root, p, x) { UnderKid(t, root, p, x); }
  }

  /** All children gone, then the entry itself: that is its subtree. */
  lemma PruneSelf(t: Tree, root: Entry, e: Entry)
    requires WellFormed(t, root) && e in t.up
    ensures var r := PrunedFrom(t, root, e, 0);
      WellFormed(r, root) && e in r.up && r.kids[e] == [] && Cut(r, {e}) == Pruned(t, root, e)
  {
    PrunedFromKids(t, root, e, 0);
    assert t.kids[e][0..] == t.kids[e];
    SubtreesClosed(t, root, e, t.kids[e]);
    CutSelf(t, root, e);
  }

  lemma CutSelf(t: Tree, root: Entry, e: Entry)
    requires WellFormed(t, root) && e in t.kids
    ensures Cut(Cut(t, Subtrees(t, root, t.kids[e])), {e}) == Pruned(t, root, e)
  {
    SubtreeIsKids(t, root, e);
    CutCut(t, Subtrees(t, root, t.kids[e]), {e});
    assert Subtrees(t, root, t.kids[e]) + {e} == Subtree(t, root, e);
  }

  lemma PruneNone(t: Tree, root: Entry, p: Entry)
    requires WellFormed(t, root) && p in t.kids
    ensures PrunedFrom(t, root, p, |t.kids[p]|) == t
  {
    assert t.kids[p][|t.kids[p]|..] == [];
    CutNothing(t);
  }

  /** Exactly the entries under e are missing in the pruned tree, and of the child lists only that of e's
      parent changes: it loses e. */
  lemma PrunedIs(t: Tree, root: Entry, e: Entry)
    requires WellFormed(t, root) && e in t.up
    ensures var r := Pruned(t, root, e);
      && WellFormed(r, root)
      && (forall x :: x in r.kids <==> x in t.kids && !Under(t, root, e, x))
      && (forall x :: x in r.up ==> x in t.up && r.up[x] == t.up[x])
      && (forall p :: p in r.kids ==> r.kids[p] == Keep(t.kids[p], {e}))
  {
    SubtreeFacts(t, root, e);
    CutKeeps(t, root, Subtree(t, root, e));
    forall p | p in t.kids && !Under(t, root, e, p)
      ensures Keep(t.kids[p], Subtree(t, root, e)) == Keep(t.kids[p], {e}) {
      forall c | c in t.kids[p] ensures c in Subtree(t, root, e) <==> c == e { KidUp(t, p, c); }
      KeepSame(t.kids[p], Subtree(t, root, e), {e});
    }
  }

  lemma {:induction false} KeepSame(s: seq<Entry>, a: set<Entry>, b: set<Entry>)
    requires forall c :: c in s ==> (c in a <==> c in b)
    ensures Keep(s, a) == Keep(s, b)
  {
    if s != [] { KeepSame(s[1..], a, b); }
  }
}
