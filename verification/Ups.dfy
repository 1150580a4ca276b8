/** Registering, unregistering and finding entries in the heap (src/xpr_ups.c): the links always spell the tree
    of UpsTree.dfy, and every path printed for an entry finds it again. */
module Ups {
  import opened Common
  import opened UpsTree
  import opened UpsPath

  datatype Err = Ok | Exist | NotReady

  // ----- the operations on the tree

  /** Where an entry goes: under the parent given, else under the entry its root path names. */
  ghost function Target(t: Tree, root: Entry, e: Entry, parent: Entry?): Entry?
    requires root in t.kids
  {
    if parent != null then parent
    else if e.root.None? then root
    else Lookup(t, root, e.root.value)
  }

  datatype Op = Register(e: Entry, parent: Entry?) | Unregister(e: Entry)

  /** What callers may ask for. An entry registered already may be registered again only in its place, and
      every name and path on the way must fit its buffer. */
  ghost predicate Allowed(t: Tree, root: Entry, op: Op)
    requires WellFormed(t, root)
  {
    op.e != root &&
    match op
    case Register(e, parent) =>
      && GoodName(e.name)
      && (parent != null ==> parent in t.kids)
      && (e in t.up ==> Target(t, root, e, parent) == t.up[e])
      && RegisterFits(t, root, e, parent)
    case Unregister(e) => e in t.kids ==> AllPrintable(t, root, Subtree(t, root, e))
  }

  /** Registering looks up the root path, then the name under the parent, and prints what is overridden. */
  ghost predicate RegisterFits(t: Tree, root: Entry, e: Entry, parent: Entry?)
    requires WellFormed(t, root)
  {
    && (parent == null && e.root.Some? ==> LookupTop(t, root, e.root.value) < SEGMENT)
    && var p := Target(t, root, e, parent);
    p != null && p in t.kids ==>
      && |e.name| < SEGMENT
      && var temp := Find(t.kids[p], e.name);
      temp != null && e.override ==> AllPrintable(t, root, Subtree(t, root, temp))
  }

  ghost function RegisterErr(t: Tree, root: Entry, e: Entry, parent: Entry?): Err
    requires root in t.kids
  {
    var p := Target(t, root, e, parent);
    if p == null || p !in t.kids then NotReady
    else if Find(t.kids[p], e.name) != null && !e.override then Exist
    else Ok
  }

  /** An entry of the same name makes registering fail, or is pruned when the new entry overrides. */
  ghost function Apply(t: Tree, root: Entry, op: Op): Tree
    requires WellFormed(t, root) && Allowed(t, root, op)
  {
    match op
    case Unregister(e) => if e in t.kids then Pruned(t, root, e) else t
    case Register(e, parent) =>
      if RegisterErr(t, root, e, parent) != Ok then t
      else
        var p := Target(t, root, e, parent);
        var temp := Find(t.kids[p], e.name);
        if temp == null then Grow(t, p, e)
        else
          FindFacts(t.kids[p], e.name);
          OverrideRoom(t, root, p, temp);
          Grow(Pruned(t, root, temp), p, e)
  }

  lemma OverrideRoom(t: Tree, root: Entry, p: Entry, temp: Entry)
    requires WellFormed(t, root) && p in t.kids && Find(t.kids[p], temp.name) == temp
    ensures temp in t.up
    ensures var r := Pruned(t, root, temp);
      WellFormed(r, root) && p in r.kids && temp !in r.kids && Find(r.kids[p], temp.name) == null
  {
    var s := t.kids[p];
    FindFacts(s, temp.name);
    KidUp(t, p, temp);
    PrunedIs(t, root, temp);
    if Under(t, root, temp, p) { UnderDepth(t, root, temp, p); }
    forall c | c in Keep(s, {temp}) ensures c.name != temp.name {
      KeepIn(s, {temp}, c);
      if c.name == temp.name { FindIs(s, c); }
    }
    FindFacts(Keep(s, {temp}), temp.name);
  }

  lemma ApplyKeeps(t: Tree, root: Entry, op: Op)
    requires WellFormed(t, root) && Allowed(t, root, op)
    ensures WellFormed(Apply(t, root, op), root)
  {
    match op {
      case Unregister(e) => if e in t.kids { PrunedIs(t, root, e); }
      case Register(e, parent) =>
        if RegisterErr(t, root, e, parent) == Ok {
          RegisterRoom(t, root, e, parent);
          var p := Target(t, root, e, parent);
          var temp := Find(t.kids[p], e.name);
          GrowKeeps(if temp == null then t else Pruned(t, root, temp), root, p, e);
        }
    }
  }

  /** When nothing stands in the way, or it is pruned, there is room for the entry. */
  lemma RegisterRoom(t: Tree, root: Entry, e: Entry, parent: Entry?)
    requires WellFormed(t, root) && Allowed(t, root, Register(e, parent)) && RegisterErr(t, root, e, parent) == Ok
    ensures var p := Target(t, root, e, parent);
      && p in t.kids
      && var temp := Find(t.kids[p], e.name);
      && (temp != null ==> temp in t.up && temp.name == e.name)
      && var r := if temp == null then t else Pruned(t, root, temp);
      && WellFormed(r, root) && p in r.kids && p in r.depth && e !in r.kids && Find(r.kids[p], e.name) == null
      && Apply(t, root, Op.Register(e, parent)) == Grow(r, p, e)
      && (temp != null ==> AllPrintable(t, root, Subtree(t, root, temp)) && temp != root && temp in t.kids)
  {
    var p := Target(t, root, e, parent);
    var temp := Find(t.kids[p], e.name);
    FindFacts(t.kids[p], e.name);
    if e in t.kids { FindIs(t.kids[p], e); }
    if temp != null {
      OverrideRoom(t, root, p, temp);
      PrunedIs(t, root, temp);
    }
  }

  /** The place, and what is looked up there. */
  lemma RegisterPlace(t: Tree, root: Entry, e: Entry, parent: Entry?)
    requires WellFormed(t, root) && Allowed(t, root, Op.Register(e, parent))
    ensures GoodName(e.name) && (parent != null ==> parent in t.kids)
    ensures parent == null && e.root.Some? ==> LookupTop(t, root, e.root.value) < SEGMENT
    ensures var p := Target(t, root, e, parent); p != null && p in t.kids ==>
      && Lookup(t, p, e.name) == Find(t.kids[p], e.name) && LookupTop(t, p, e.name) < SEGMENT
    ensures var p := Target(t, root, e, parent);
      && (p != null ==> p in t.kids)
      && RegisterErr(t, root, e, parent)
         == (if p == null then NotReady else if Find(t.kids[p], e.name) != null && !e.override then Exist else Ok)
    ensures RegisterErr(t, root, e, parent) != Ok ==> Apply(t, root, Op.Register(e, parent)) == t
    ensures RegisterErr(t, root, e, parent) == Ok ==>
      var p, r := Target(t, root, e, parent), Apply(t, root, Op.Register(e, parent));
      p in t.kids && e in r.up && r.up[e] == p
  {
    var p := Target(t, root, e, parent);
    if parent == null && e.root.Some? { LookupFindsEntry(t, root, root, e.root.value); }
    if p != null { LookupChild(t, p, e.name); }
    if RegisterErr(t, root, e, parent) == Ok { RegisterRoom(t, root, e, parent); }
  }

  /** The place an entry asks for: the parent given, else the entry whose path is its root path, else the root. */
  ghost predicate AsksFor(t: Tree, root: Entry, e: Entry, parent: Entry?, p: Entry, sep: char)
    requires WellFormed(t, root) && p in t.kids
  {
    if parent != null then p == parent
    else if e.root.None? then p == root
    else e.root.value == FullName(t, root, p, sep)
  }

  /** A separator stands between the names of an entry and its parent, but not in front of a dotted path. */
  ghost function PathBelow(root: Entry, p: Entry, path: string, sep: char, name: string): string {
    (if p == root then "" else path) + (if p == root && sep == '.' then "" else [sep]) + name
  }

  /** An entry lands behind the other children of the place it asks for, under the path that says so, and takes the
      place of one of its name if it overrides; else that one makes the call fail. No other path changes. */
  lemma RegisterLands(t: Tree, root: Entry, e: Entry, parent: Entry?, p: Entry, sep: char)
    requires WellFormed(t, root) && root.name == "/" && (sep == '/' || sep == '.')
    requires Allowed(t, root, Op.Register(e, parent))
    requires p in t.kids && AsksFor(t, root, e, parent, p, sep)
    ensures var taken := exists c: Entry :: c in t.kids[p] && c.name == e.name;
      RegisterErr(t, root, e, parent) == if taken && !e.override then Exist else Ok
    ensures RegisterErr(t, root, e, parent) == Ok ==>
      var r := Apply(t, root, Op.Register(e, parent));
      && WellFormed(r, root) && p in r.kids && e in r.up && r.up[e] == p && r.kids[e] == []
      && Last(r.kids[p]) == e
      && (forall c: Entry :: c in r.kids[p] <==> c == e || (c in t.kids[p] && c.name != e.name))
      && FullName(r, root, e, sep) == PathBelow(root, p, FullName(t, root, p, sep), sep, e.name)
      && (forall x :: x in r.kids && x != e ==> x in t.kids && FullName(r, root, x, sep) == FullName(t, root, x, sep))
  {
    if parent == null && e.root.Some? { PathRoundTrip(t, root, p, sep); }
    FindFacts(t.kids[p], e.name);
    if RegisterErr(t, root, e, parent) == Ok {
      RegisterRoom(t, root, e, parent);
      ApplyKeeps(t, root, Op.Register(e, parent));
      var temp := Find(t.kids[p], e.name);
      var q := if temp == null then t else Pruned(t, root, temp);
      if temp != null { PrunedLeaves(t, root, p, temp, sep); }
      GrownPaths(q, root, p, e, sep);
    }
  }

  lemma PrunedLeaves(t: Tree, root: Entry, p: Entry, temp: Entry, sep: char)
    requires WellFormed(t, root) && p in t.kids && Find(t.kids[p], temp.name) == temp
    ensures var r := Pruned(t, root, temp);
      && WellFormed(r, root) && p in r.kids
      && (forall c: Entry :: c in r.kids[p] <==> c in t.kids[p] && c.name != temp.name)
      && (forall x :: x in r.kids ==> x in t.kids && FullName(r, root, x, sep) == FullName(t, root, x, sep))
  {
    var r := Pruned(t, root, temp);
    OverrideRoom(t, root, p, temp);
    PrunedIs(t, root, temp);
    SubtreeFacts(t, root, temp);
    forall c: Entry ensures c in r.kids[p] <==> c in t.kids[p] && c.name != temp.name {
      KeepIn(t.kids[p], {temp}, c);
      if c in t.kids[p] { FindIs(t.kids[p], c); }
    }
    forall x | x in r.kids ensures x in t.kids && FullName(r, root, x, sep) == FullName(t, root, x, sep) {
      PathOfCut(t, root, Subtree(t, root, temp), x, sep);
    }
  }

  lemma GrownPaths(t: Tree, root: Entry, p: Entry, e: Entry, sep: char)
    requires WellFormed(t, root) && p in t.kids && e !in t.kids && WellFormed(Grow(t, p, e), root)
    ensures var r := Grow(t, p, e);
      && Last(r.kids[p]) == e && r.kids[e] == [] && (forall c :: c in r.kids[p] <==> c in t.kids[p] || c == e)
      && FullName(r, root, e, sep) == PathBelow(root, p, FullName(t, root, p, sep), sep, e.name)
      && (forall x :: x in r.kids && x != e ==> x in t.kids && FullName(r, root, x, sep) == FullName(t, root, x, sep))
  {
    forall x | x in t.kids ensures FullName(Grow(t, p, e), root, x, sep) == FullName(t, root, x, sep) {
      PathOfGrow(t, root, p, e, x, sep);
    }
    PathOfGrow(t, root, p, e, p, sep);
  }

  /** A root path that is no entry's full name is not ready yet, and nothing changes. */
  lemma RegisterNowhere(t: Tree, root: Entry, e: Entry, names: seq<string>, sep: char)
    requires WellFormed(t, root) && root.name == "/" && (sep == '/' || sep == '.')
    requires Allowed(t, root, Op.Register(e, null))
    requires names != [] && forall i :: 0 <= i < |names| ==> GoodName(names[i])
    requires e.root == Some(if sep == '.' then Path(names, sep)[1..] else Path(names, sep))
    ensures RegisterErr(t, root, e, null) == NotReady <==>
      forall p :: p in t.kids ==> FullName(t, root, p, sep) != e.root.value
    ensures RegisterErr(t, root, e, null) != Ok ==> Apply(t, root, Op.Register(e, null)) == t
  {
    LookupExactly(t, root, names, sep);
    LookupFindsEntry(t, root, root, e.root.value);
  }

  // ----- runs

  ghost predicate AllowedRun(t: Tree, root: Entry, ops: seq<Op>)
    requires WellFormed(t, root)
    decreases |ops|
  {
    ops == [] ||
    (Allowed(t, root, ops[0]) && WellFormed(Apply(t, root, ops[0]), root)
      && AllowedRun(Apply(t, root, ops[0]), root, ops[1..]))
  }

  ghost function Run(t: Tree, root: Entry, ops: seq<Op>): (r: Tree)
    requires WellFormed(t, root) && AllowedRun(t, root, ops)
    ensures WellFormed(r, root)
    decreases |ops|
  {
    if ops == [] then t else Run(Apply(t, root, ops[0]), root, ops[1..])
  }

  /** After every run, siblings have different names, and each path printed for an entry finds that entry; a
      path that fits the buffer it is printed to also fits the one it is cut up in. */
  lemma PathsAfterRun(root: Entry, ops: seq<Op>, e: Entry, sep: char)
    requires root.name == "/" && (sep == '/' || sep == '.')
    requires WellFormed(Bare(root), root) && AllowedRun(Bare(root), root, ops)
    ensures var t := Run(Bare(root), root, ops);
      && (forall p :: p in t.kids ==> Siblings(t.kids[p]))
      && (e in t.kids ==>
            var path := FullName(t, root, e, sep);
            Lookup(t, root, path) == e && (|path| < PRINTED ==> LookupTop(t, root, path) < SEGMENT))
  {
    var t := Run(Bare(root), root, ops);
    if e in t.kids {
      PathRoundTrip(t, root, e, sep);
      LookupTopInKey(t, root, FullName(t, root, e, sep));
    }
  }

  // ----- the heap

  /** The links of x are those of the tree. */
  ghost predicate Linked(t: Tree, x: Entry)
    requires x in t.up && t.up[x] in t.kids
    reads x
  {
    x.parent == t.up[x] && x.next == NextOf(t, x) && x.prev == PrevOf(t, x)
  }

  ghost predicate Headed(t: Tree, p: Entry)
    requires p in t.kids
    reads p
  {
    p.childs == First(t.kids[p]) && p.registered
  }

  ghost predicate AllLinked(t: Tree)
    reads t.kids.Keys
  {
    forall x {:trigger Linked(t, x)} ::
      x in t.up && x in t.kids ==> t.up[x] in t.kids && Linked(t, x)
  }

  ghost predicate AllHeaded(t: Tree)
    reads t.kids.Keys
  {
    forall p {:trigger Headed(t, p)} :: p in t.kids ==> Headed(t, p)
  }

  /** Out of the tree: no links, and the flag is off. */
  predicate Cleared(x: Entry)
    reads x
  {
    !x.registered && x.parent == null && x.prev == null && x.next == null && x.childs == null
  }

  lemma NameIs(s: string, n: nat)
    requires n <= |s| && (forall i :: 0 <= i < n ==> !IsSep(s[i])) && (n == |s| || IsSep(s[n]))
    ensures Name(s) == s[..n]
  {
    NameStops(s[..n], s[n..]);
    assert s[..n] + s[n..] == s;
  }

  // ----- the segments of a key

  /** The segment read so far starts at nl, with its separator unless it is the first, and ends at nr. */
  ghost predicate Between(k: string, nl: nat, nr: nat, down: bool) {
    nl <= nr && nl <= |k| &&
    if down then
      && nl < nr && (nl == |k| || IsSep(k[nl])) && (nl == |k| <==> nr == |k| + 1)
      && forall i :: nl < i < nr && i < |k| ==> !IsSep(k[i])
    else
      nl == 0 && nr <= |k| && forall i :: 0 <= i < nr ==> !IsSep(k[i])
  }

  lemma Segment(k: string, nl: nat, nr: nat)
    requires nr <= |k| && Between(k, nl, nr, true) && (nr == |k| || IsSep(k[nr]))
    ensures var s := k[nl..]; Name(s[1..]) == k[nl..nr][1..] && s[1 + |Name(s[1..])|..] == k[nr..]
  {
    var s := k[nl..];
    NameIs(s[1..], nr - nl - 1);
    assert s[1..][..nr - nl - 1] == k[nl..nr][1..];
  }

  /** What a segment between two separators does. */
  lemma WalkTurn(t: Tree, e: Entry, k: string, nl: nat, nr: nat)
    requires e in t.kids && nr <= |k| && Between(k, nl, nr, true) && (nr == |k| || IsSep(k[nr]))
    ensures var n := k[nl..nr][1..]; var c := Find(t.kids[e], n);
      && Walk(t, e, k[nl..])
        == (if n == "" then (if e.dir then e else null) else if c == null then null else Walk(t, c, k[nr..]))
      && WalkTop(t, e, k[nl..]) == Max(nr - nl, if n == "" || c == null then 0 else WalkTop(t, c, k[nr..]))
  {
    Segment(k, nl, nr);
  }

  lemma FirstTurn(t: Tree, e: Entry, k: string, nr: nat)
    requires e in t.kids && nr <= |k| && Between(k, 0, nr, false) && (nr == |k| || IsSep(k[nr]))
    ensures var c := Find(t.kids[e], k[0..nr]);
      && Descent(t, e, k) == (if c == null then null else Walk(t, c, k[nr..]))
      && DescentTop(t, e, k) == Max(nr, if c == null then 0 else WalkTop(t, c, k[nr..]))
  {
    NameIs(k, nr);
  }

  lemma WalkEnds(t: Tree, e: Entry?)
    ensures e != null ==> Walk(t, e, "") == e && WalkTop(t, e, "") == 0
  {
  }

  // ----- loops over the links

  ghost predicate NextIs(s: seq<Entry>, i: nat)
    requires i < |s|
    reads s
  {
    s[i].next == First(s[i + 1..])
  }

  /** Each sibling's `next` is the one behind it. */
  ghost predicate Siblinged(s: seq<Entry>)
    reads s
  {
    forall i {:trigger NextIs(s, i)} :: 0 <= i < |s| ==> NextIs(s, i)
  }

  method LastSibling(first: Entry?, ghost s: seq<Entry>) returns (curr: Entry?)
    requires first == First(s) && Siblinged(s)
    ensures curr == Last(s)
  {
    ghost var i := 0;
    curr := first;
    while curr != null && curr.next != null
      invariant s != [] ==> i < |s| && curr == s[i]
      invariant s == [] ==> curr == null
      decreases |s| - i
    {
      assert NextIs(s, i);
      curr := curr.next;
      i := i + 1;
    }
    assert curr != null ==> NextIs(s, i);
  }

  /** findSibling */
  method FindSibling(name: string, first: Entry?, ghost s: seq<Entry>) returns (r: Entry?)
    requires first == First(s) && Siblinged(s)
    ensures r == Find(s, name)
  {
    ghost var i := 0;
    r := first;
    while r != null
      invariant i <= |s| && r == First(s[i..]) && Find(s, name) == Find(s[i..], name)
      decreases |s| - i
    {
      assert s[i] == r && s[i..][1..] == s[i + 1..];
      if name == r.name {
        return;
      }
      assert NextIs(s, i);
      r := r.next;
      i := i + 1;
    }
  }

  /** Each entry's `parent` is the one behind it. */
  ghost predicate Upwards(s: seq<Entry>)
    reads s
  {
    forall i {:trigger s[i].parent} :: 0 <= i < |s| ==> s[i].parent == if i + 1 < |s| then s[i + 1] else null
  }

  /** The stack of printing: e and all above it, one place each. */
  method Climb(e: Entry, stack: array<Entry?>, ghost s: seq<Entry>) returns (depth: nat)
    requires s != [] && s[0] == e && Upwards(s) && |s| <= stack.Length
    modifies stack
    ensures depth == |s| && forall i :: 0 <= i < depth ==> stack[i] == s[i]
  {
    var temp: Entry? := e;
    depth := 0;
    while temp != null
      invariant depth <= |s| && Upwards(s)
      invariant forall i :: 0 <= i < depth ==> stack[i] == s[i]
      invariant temp == if depth < |s| then s[depth] else null
      decreases |s| - depth
    {
      stack[depth] := temp;
      depth := depth + 1;
      temp := temp.parent;
    }
  }

  /** snprintf of a text that fits: behind it comes a zero. */
  method Format(buf: array<char>, offset: nat, s: string) returns (end: nat)
    requires offset + |s| < buf.Length
    modifies buf
    ensures end == offset + |s| && buf[..end] == old(buf[..offset]) + s && buf[end] == '\0'
  {
    for i := 0 to |s|
      invariant buf[..offset + i] == old(buf[..offset]) + s[..i]
    {
      buf[offset + i] := s[i];
      assert buf[..offset + i + 1] == buf[..offset + i] + [s[i]];
    }
    end := offset + |s|;
    buf[end] := '\0';
    assert buf[..end] == old(buf[..offset]) + s[..|s|];
  }

  /** One turn of the printing loop: no separator in front of the first name of a dotted path. */
  method FormatLevel(buf: array<char>, offset: nat, sep: char, bare: bool, name: string) returns (end: nat)
    requires offset + (if bare then 0 else 1) + |name| < buf.Length
    modifies buf
    ensures var s := old(buf[..offset]) + (if bare then "" else [sep]) + name;
      end == |s| && buf[..end] == s && buf[end] == '\0'
  {
    end := offset;
    if !bare {
      end := Format(buf, end, [sep]);
    }
    end := Format(buf, end, name);
  }

  /** memcpy of a segment, and a zero behind it. */
  method CopySegment(name: array<char>, k: string, nl: nat, nr: nat)
    requires nl <= nr <= |k| && nr - nl < name.Length
    modifies name
    ensures name[..nr - nl] == k[nl..nr]
  {
    for i := 0 to nr - nl
      invariant name[..i] == k[nl..nl + i]
    {
      name[i] := k[nl + i];
      assert name[..i + 1] == name[..i] + [k[nl + i]];
    }
    name[nr - nl] := '\0';
  }

  // ----- taking an entry without children out

  /** Around e the links already skip it. */
  ghost predicate LinkedWithout(t: Tree, e: Entry)
    requires e in t.up && t.up[e] in t.kids
    reads t.kids.Keys
  {
    forall x {:trigger x.next} {:trigger x.prev} {:trigger x.parent} :: x in t.up && x in t.kids && x != e ==>
      && t.up[x] in t.kids
      && x.parent == t.up[x]
      && x.next == (if x == PrevOf(t, e) then NextOf(t, e) else NextOf(t, x))
      && x.prev == (if x == NextOf(t, e) then PrevOf(t, e) else PrevOf(t, x))
  }

  ghost predicate HeadedWithout(t: Tree, e: Entry)
    requires e in t.up && t.up[e] in t.kids
    reads t.kids.Keys
  {
    forall p {:trigger p.childs} {:trigger p.registered} :: p in t.kids && p != e ==>
      p.registered && p.childs == if p == t.up[e] && PrevOf(t, e) == null then NextOf(t, e) else First(t.kids[p])
  }

  /** The neighbours link past the entry between them. */
  method Bypass(prev: Entry?, next: Entry?, parent: Entry?)
    modifies (if prev == null then {} else {prev})`next, (if next == null then {} else {next})`prev
    modifies (if parent == null then {} else {parent})`childs
    ensures prev != null ==> prev.next == next
    ensures next != null ==> next.prev == prev
    ensures parent != null ==> parent.childs == if prev == null then next else old(parent.childs)
  {
    if prev != null {
      prev.next := next;
    } else if parent != null {
      parent.childs := next;
    }
    if next != null {
      next.prev := prev;
    }
  }

  method Clear(e: Entry)
    modifies e
    ensures Cleared(e)
  {
    e.parent, e.prev, e.next, e.childs := null, null, null, null;
    e.registered := false;
  }

  /** The pointer writes that take e out of the chain of its siblings, and off the register. */
  method Relink(e: Entry, ghost t: Tree, ghost root: Entry)
    requires root in t.kids && root !in t.up && e in t.up && e in t.kids && AllLinked(t) && AllHeaded(t)
    requires forall x {:trigger t.up[x]} :: x in t.up ==> t.up[x] in t.kids
    requires PrevOf(t, e) != null ==> PrevOf(t, e) in t.kids && PrevOf(t, e) in t.up
    requires NextOf(t, e) != null ==> NextOf(t, e) in t.kids && NextOf(t, e) in t.up
    modifies t.kids.Keys
    ensures Cleared(e) && LinkedWithout(t, e) && HeadedWithout(t, e)
    ensures root.parent == old(root.parent) && root.next == old(root.next) && root.prev == old(root.prev)
  {
    hide NextOf, PrevOf, First;
    assert Linked(t, e);
    Bypass(e.prev, e.next, e.parent);
    Clear(e);
    forall x | x in t.up && x in t.kids && x != e
      ensures t.up[x] in t.kids && x.parent == t.up[x]
      ensures x.next == (if x == PrevOf(t, e) then NextOf(t, e) else NextOf(t, x))
      ensures x.prev == (if x == NextOf(t, e) then PrevOf(t, e) else PrevOf(t, x))
    {
      assert old(Linked(t, x));
    }
    forall p | p in t.kids && p != e
      ensures p.registered && p.childs ==
        if p == t.up[e] && PrevOf(t, e) == null then NextOf(t, e) else First(t.kids[p])
    {
      assert old(Headed(t, p));
    }
  }

  lemma RootIsTop(t: Tree, root: Entry, e: Entry)
    requires WellFormed(t, root)
    ensures root in t.kids && root !in t.up && (e in t.kids && e != root ==> e in t.up)
    ensures forall x {:trigger t.up[x]} :: x in t.up ==> t.up[x] in t.kids
    ensures t.depth.Keys == t.kids.Keys
    ensures e in t.up && t.kids[e] == [] ==> Closed(t, {e})
  {
  }

  /** First the children go, then the entry. */
  lemma UnregisterSteps(t: Tree, root: Entry, e: Entry)
    requires WellFormed(t, root) && e in t.kids && e != root && AllPrintable(t, root, Subtree(t, root, e))
    ensures AllPrintable(t, root, Subtrees(t, root, t.kids[e]))
    ensures var r := PrunedFrom(t, root, e, 0);
      && WellFormed(r, root) && e in r.kids && e in r.up && r.kids[e] == [] && Printable(r, root, e)
      && Cut(r, {e}) == Apply(t, root, Op.Unregister(e))
      && (forall x :: x in Cut(r, {e}).kids ==> x in t.kids)
      && (forall x :: x in r.kids && x !in Cut(r, {e}).kids ==> x == e)
  {
    RootIsTop(t, root, e);
    PruneSelf(t, root, e);
    PrintableSelf(t, root, e);
    PrunedFromKids(t, root, e, 0);
  }

  lemma NeighboursInTree(t: Tree, root: Entry, e: Entry)
    requires WellFormed(t, root) && e in t.up
    ensures e in t.kids && t.up[e] in t.kids
    ensures PrevOf(t, e) != null ==> PrevOf(t, e) in t.kids && PrevOf(t, e) in t.up
    ensures NextOf(t, e) != null ==> NextOf(t, e) in t.kids && NextOf(t, e) in t.up
  {
    var p := t.up[e];
    var s := t.kids[p];
    NeighboursIn(s, e);
    if After(s, e) != null { KidUp(t, p, After(s, e)); }
    if Before(s, e) != null { KidUp(t, p, Before(s, e)); }
  }

  lemma LinkedCut(t: Tree, root: Entry, e: Entry)
    requires WellFormed(t, root) && e in t.up && t.up[e] in t.kids && t.kids[e] == [] && LinkedWithout(t, e)
    ensures AllLinked(Cut(t, {e}))
  {
    var r := Cut(t, {e});
    forall x | x in r.up && x in r.kids ensures r.up[x] in r.kids && Linked(r, x) { LinkedAfterCut(t, root, e, x); }
  }

  lemma LinkedAfterCut(t: Tree, root: Entry, e: Entry, x: Entry)
    requires WellFormed(t, root) && e in t.up && t.up[e] in t.kids && t.kids[e] == [] && LinkedWithout(t, e)
    requires x in t.up && x != e
    ensures var r := Cut(t, {e}); x in r.up && r.up[x] in r.kids && Linked(r, x)
  {
    CutLeafLinks(t, root, e, x);
  }

  lemma HeadedCut(t: Tree, root: Entry, e: Entry)
    requires WellFormed(t, root) && e in t.up && t.up[e] in t.kids && t.kids[e] == [] && HeadedWithout(t, e)
    ensures AllHeaded(Cut(t, {e}))
  {
    forall p | p in t.kids && p != e ensures Headed(Cut(t, {e}), p) { CutLeafKids(t, root, e, p); }
  }

  // ----- linking an entry in

  ghost predicate LinkedWith(t: Tree, p: Entry, e: Entry)
    requires p in t.kids
    reads t.kids.Keys
  {
    forall x {:trigger x.next} {:trigger x.prev} {:trigger x.parent} :: x in t.up && x in t.kids ==>
      && t.up[x] in t.kids
      && x.parent == t.up[x]
      && x.next == (if x == Last(t.kids[p]) then e else NextOf(t, x))
      && x.prev == PrevOf(t, x)
  }

  ghost predicate HeadedWith(t: Tree, p: Entry, e: Entry)
    requires p in t.kids
    reads t.kids.Keys
  {
    forall q {:trigger q.childs} {:trigger q.registered} :: q in t.kids ==>
      q.registered && q.childs == if q == p && t.kids[p] == [] then e else First(t.kids[q])
  }

  /** The pointer writes that hang e behind its parent's last child. */
  method Hang(e: Entry, parent: Entry, child: Entry?, ghost t: Tree, ghost root: Entry)
    requires root in t.kids && root !in t.up && e !in t.kids && parent in t.kids && AllLinked(t) && AllHeaded(t)
    requires forall x {:trigger t.up[x]} :: x in t.up ==> t.up[x] in t.kids
    requires child == Last(t.kids[parent]) && (child != null ==> child in t.up && child in t.kids)
    modifies t.kids.Keys, e
    ensures LinkedWith(t, parent, e) && HeadedWith(t, parent, e)
    ensures e.parent == parent && e.prev == child && e.next == null && e.childs == null && e.registered
    ensures root.parent == old(root.parent) && root.next == old(root.next) && root.prev == old(root.prev)
  {
    hide NextOf, PrevOf;
    if child == null {
      parent.childs := e;
    } else {
      child.next := e;
    }
    e.parent, e.prev, e.next, e.childs := parent, child, null, null;
    e.registered := true;
    forall x | x in t.up && x in t.kids
      ensures t.up[x] in t.kids && x.parent == t.up[x] && x.prev == PrevOf(t, x)
      ensures x.next == if x == child then e else NextOf(t, x)
    {
      assert old(Linked(t, x));
    }
    forall q | q in t.kids
      ensures q.registered && q.childs == if q == parent && t.kids[q] == [] then e else First(t.kids[q]) {
      assert old(Headed(t, q));
    }
  }

  lemma GrowKeys(t: Tree, p: Entry, e: Entry)
    requires p in t.kids && p in t.depth
    ensures e in Grow(t, p, e).kids && forall x :: x in t.kids ==> x in Grow(t, p, e).kids
  {
  }

  lemma LinkedGrow(t: Tree, root: Entry, p: Entry, e: Entry)
    requires WellFormed(t, root) && p in t.kids && e !in t.kids && GoodName(e.name) && Find(t.kids[p], e.name) == null
    requires LinkedWith(t, p, e) && e.parent == p && e.prev == Last(t.kids[p]) && e.next == null
    ensures AllLinked(Grow(t, p, e))
  {
    var r := Grow(t, p, e);
    forall x | x in r.up && x in r.kids ensures r.up[x] in r.kids && Linked(r, x) { LinkedAfterGrow(t, root, p, e, x); }
  }

  lemma LinkedAfterGrow(t: Tree, root: Entry, p: Entry, e: Entry, x: Entry)
    requires WellFormed(t, root) && p in t.kids && e !in t.kids && GoodName(e.name) && Find(t.kids[p], e.name) == null
    requires LinkedWith(t, p, e) && e.parent == p && e.prev == Last(t.kids[p]) && e.next == null
    requires x in t.up || x == e
    ensures var r := Grow(t, p, e); x in r.up && r.up[x] in r.kids && Linked(r, x)
  {
    GrowLinks(t, root, p, e, x);
  }

  lemma HeadedGrow(t: Tree, p: Entry, e: Entry)
    requires p in t.kids && p in t.depth && e !in t.kids && HeadedWith(t, p, e) && e.childs == null && e.registered
    ensures AllHeaded(Grow(t, p, e))
  {
  }

  class Ups {
    const root: Entry
    ghost var tree: Tree

    ghost predicate Valid()
      reads this, tree.kids.Keys
    {
      && root.name == "/"
      && WellFormed(tree, root)
      && root.parent == null && root.prev == null && root.next == null
      && AllLinked(tree) && AllHeaded(tree)
    }

    constructor ()
      ensures Valid() && tree == Bare(root) && fresh(root)
    {
      var r := new Entry("/", None, true, false);
      r.registered := true;
      root := r;
      tree := Bare(r);
      new;
      assert Headed(tree, root);
    }

    // ----- finding

    /** What the links of the i-th child of p are. */
    lemma Sibling(p: Entry, i: nat)
      requires Valid() && p in tree.kids && i < |tree.kids[p]|
      ensures var s := tree.kids[p]; var c := s[i];
        && c in tree.up && tree.up[c] == p && c.parent == p
        && c.next == First(s[i + 1..]) && c.prev == Last(s[..i])
    {
      var s := tree.kids[p];
      KidUp(tree, p, s[i]);
      assert Linked(tree, s[i]);
      Neighbours(s, i);
    }

    static lemma Neighbours(s: seq<Entry>, i: nat)
      requires Siblings(s) && i < |s|
      ensures After(s, s[i]) == First(s[i + 1..]) && Before(s, s[i]) == Last(s[..i])
    {
      AfterAt(s, i);
    }

    lemma ChildrenSiblinged(p: Entry)
      requires Valid() && p in tree.kids
      ensures p.childs == First(tree.kids[p]) && Siblinged(tree.kids[p])
    {
      assert Headed(tree, p);
      var s := tree.kids[p];
      forall i: nat | i < |s| ensures NextIs(s, i) { Sibling(p, i); }
    }

    /** findEntry: every segment goes one level down; a segment that is a separator alone ends the search.
        It works exactly for the keys whose segments fit the buffer. */
    method FindEntry(key: Option<string>, parent: Entry?) returns (r: Entry?)
      requires Valid() && (parent != null ==> parent in tree.kids)
      requires key.None? ==> parent == null
      requires key.Some? ==> LookupTop(tree, if parent == null then root else parent, key.value) < SEGMENT
      ensures r == if key.None? then root else Lookup(tree, if parent == null then root else parent, key.value)
      ensures r != null ==> r in tree.kids
    {
      if key.None? {
        return root;
      }
      var p := if parent == null then root else parent;
      LookupFindsEntry(tree, root, p, key.value);
      if key.value == "" || key.value == "/" {
        return p;
      }
      var k := key.value;
      while k != "" && k[0] == '/'
        invariant SkipSlash(k) == SkipSlash(key.value)
        decreases |k|
      {
        k := k[1..];
      }
      var name := new char[SEGMENT];
      ghost var top;
      r, top := Descend(k, p, name);
    }

    /** The loop of findEntry over the characters of the key. `top` is the last index of `name` it writes, so a
        buffer is long enough for the key if and only if that index lies in it. */
    method Descend(k: string, p: Entry, name: array<char>) returns (entry: Entry?, ghost top: nat)
      requires Valid() && p in tree.kids && DescentTop(tree, p, k) < name.Length
      modifies name
      ensures entry == Descent(tree, p, k) && top == DescentTop(tree, p, k)
    {
      hide Descent, DescentTop, Walk, WalkTop;
      var nl, nr, stop := 0, 0, false;
      ghost var down := false;
      entry, top := p, 0;
      while entry != null && nr <= |k| && !stop
        invariant Valid() && (entry != null ==> entry in tree.kids)
        invariant nr <= |k| + 1 && (!stop && entry != null ==> Between(k, nl, nr, down))
        invariant !down ==> !stop && entry == p && top == 0
        invariant down && (stop || entry == null) ==> entry == Descent(tree, p, k) && top == DescentTop(tree, p, k)
        invariant down && !stop && entry != null ==>
          Walk(tree, entry, k[nl..]) == Descent(tree, p, k)
            && Max(top, WalkTop(tree, entry, k[nl..])) == DescentTop(tree, p, k)
        decreases |k| + 1 - nr
      {
        if nr == |k| || IsSep(k[nr]) {
          if down { WalkTurn(tree, entry, k, nl, nr); } else { FirstTurn(tree, p, k, nr); }
          entry, stop := Turn(k, nl, nr, entry, name);
          top := Max(top, nr - nl);
          nl := nr;
          down := true;
        }
        nr := nr + 1;
      }
      assert entry != null && !stop ==> k[nl..] == "";
      WalkEnds(tree, entry);
    }

    /** One segment of the key: the child it names, or the end of the search. */
    method Turn(k: string, nl: nat, nr: nat, entry: Entry, name: array<char>) returns (next: Entry?, stop: bool)
      requires Valid() && entry in tree.kids && nl <= nr <= |k| && nr - nl < name.Length
      modifies name
      ensures next != null ==> next in tree.kids
      ensures stop <==> nr - nl == 1 && IsSep(k[nl])
      ensures next == if stop then (if entry.dir then entry else null)
        else Find(tree.kids[entry], if nl < nr && IsSep(k[nl]) then k[nl..nr][1..] else k[nl..nr])
    {
      CopySegment(name, k, nl, nr);
      assert nl < nr ==> name[..nr - nl][0] == k[nl] && name[1..nr - nl] == k[nl..nr][1..];
      stop := false;
      if nl == nr || !IsSep(name[0]) {
        next := Child(entry, name[..nr - nl]);
      } else if nr - nl == 1 {
        next := if entry.dir then entry else null;
        stop := true;
      } else {
        next := Child(entry, name[1..nr - nl]);
      }
    }

    method Child(p: Entry, name: string) returns (c: Entry?)
      requires Valid() && p in tree.kids
      ensures c == Find(tree.kids[p], name) && (c != null ==> c in tree.kids)
    {
      ChildrenSiblinged(p);
      ChildIn(p, name);
      c := FindSibling(name, p.childs, tree.kids[p]);
    }

    lemma ChildIn(p: Entry, name: string)
      requires Valid() && p in tree.kids
      ensures var c := Find(tree.kids[p], name); c != null ==> c in tree.kids
    {
      FindFacts(tree.kids[p], name);
      var c := Find(tree.kids[p], name);
      if c != null { KidUp(tree, p, c); }
    }

    // ----- printing

    /** entryFullName: collect the entries up to the root, then print their names downwards. The chain must fit
        the stack, and the name with its zero the buffer. */
    method PrintName(e: Entry, sep: char, buf: array<char>) returns (end: nat)
      requires Valid() && e in tree.kids
      requires |Chain(tree, root, e)| <= LEVELS && |FullName(tree, root, e, sep)| < buf.Length
      modifies buf
      ensures end < buf.Length && buf[..end] == FullName(tree, root, e, sep) && buf[end] == '\0'
    {
      ghost var s := Chain(tree, root, e);
      ChainFacts(tree, root, e);
      ChainParents(e);
      assert WellFormed(tree, root);
      hide *;
      var stack := new Entry?[LEVELS](_ => null);
      var depth: int := Climb(e, stack, s);
      depth := depth - 2;
      end := PrintDown(e, stack, depth, sep, buf, tree, root);
    }

    static method PrintDown(e: Entry, stack: array<Entry?>, depth: int, sep: char, buf: array<char>, ghost t: Tree,
                            ghost root: Entry)
      returns (end: nat)
      requires WellFormed(t, root) && e in t.kids && |FullName(t, root, e, sep)| < buf.Length
      requires var s := Chain(t, root, e);
        depth + 2 == |s| <= stack.Length && forall i :: 0 <= i < |s| ==> stack[i] == s[i]
      modifies buf
      ensures end < buf.Length && buf[..end] == FullName(t, root, e, sep) && buf[end] == '\0'
    {
      ghost var s := Chain(t, root, e);
      ChainFacts(t, root, e);
      assert FullName(t, root, e, sep) == if e == root then e.name else Printed(t, root, e, sep);
      assert Printed(t, root, root, sep) == "";
      hide *;
      end := 0;
      assert buf[..0] == "";
      if depth < 0 {
        end := Format(buf, end, e.name);
        return;
      }
      var n := depth;
      while n >= 0
        invariant -1 <= n <= depth && end < buf.Length
        invariant s[n + 1] in t.kids && buf[..end] == Printed(t, root, s[n + 1], sep)
        invariant n < depth ==> buf[end] == '\0'
      {
        PrintedAt(t, root, e, n, sep);
        end := FormatLevel(buf, end, sep, sep == '.' && n == depth, stack[n].name);
        n := n - 1;
      }
    }

    /** A name printed to a buffer no longer than the one for segments is found again. */
    method PrintThenFind(e: Entry, sep: char, buf: array<char>) returns (r: Entry?)
      requires Valid() && e in tree.kids && IsSep(sep)
      requires |Chain(tree, root, e)| <= LEVELS && |FullName(tree, root, e, sep)| < buf.Length <= SEGMENT
      modifies buf
      ensures r == e
    {
      ghost var s := FullName(tree, root, e, sep);
      var n := PrintName(e, sep, buf);
      PathRoundTrip(tree, root, e, sep);
      LookupTopInKey(tree, root, s);
      r := FindEntry(Some(buf[..n]), null);
    }

    lemma ChainParents(e: Entry)
      requires Valid() && e in tree.kids
      ensures Upwards(Chain(tree, root, e))
      decreases tree.depth[e]
    {
      ChainFacts(tree, root, e);
      if e != root {
        assert Linked(tree, e);
        ChainParents(tree.up[e]);
        ChainFacts(tree, root, tree.up[e]);
      }
    }

    // ----- unregistering

    /** The line printed for an entry that goes. */
    method Report(e: Entry)
      requires Valid() && e in tree.kids && Printable(tree, root, e)
    {
      var fullName := new char[PRINTED];
      var end := PrintName(e, '.', fullName);
    }

    /** The last part of entryUnregister, for an entry whose children are gone. */
    method Unlink(e: Entry)
      requires Valid() && e in tree.up && tree.kids[e] == []
      modifies this`tree, tree.kids.Keys
      ensures Valid() && tree == Cut(old(tree), {e}) && Cleared(e)
    {
      hide Rooted, Upward, Downward, NamesDiffer, Cut, NextOf, PrevOf, AllLinked, AllHeaded, LinkedWithout,
        HeadedWithout;
      ghost var t := tree;
      RootIsTop(t, root, e);
      NeighboursInTree(t, root, e);
      Relink(e, t, root);
      CutKeeps(t, root, {e});
      LinkedCut(t, root, e);
      HeadedCut(t, root, e);
      tree := Cut(t, {e});
    }

    method TakeOut(e: Entry)
      requires Valid() && e in tree.kids && e in tree.up && tree.kids[e] == [] && Printable(tree, root, e)
      modifies this`tree, tree.kids.Keys
      ensures Valid() && tree == Cut(old(tree), {e}) && Cleared(e)
    {
      hide *;
      Report(e);
      Unlink(e);
    }

    /** entryUnregisterSiblings: to the last child, then backwards. */
    method UnregisterSiblings(first: Entry?, ghost p: Entry)
      requires Valid() && p in tree.kids && first == First(tree.kids[p])
      requires AllPrintable(tree, root, Subtrees(tree, root, tree.kids[p]))
      modifies this`tree, tree.kids.Keys
      ensures Valid() && tree == PrunedFrom(old(tree), root, p, 0)
      ensures forall x :: x in old(tree.kids) && x !in tree.kids ==> Cleared(x)
      decreases Subtree(tree, root, p), 1
    {
      ghost var t, cs := tree, tree.kids[p];
      ChildrenSiblinged(p);
      var curr := LastSibling(first, cs);
      ghost var i: nat := |cs|;
      PruneNone(t, root, p);
      assert WellFormed(t, root) && curr == if i == 0 then null else cs[i - 1];
      hide *;
      while curr != null
        invariant i <= |cs| && curr == if i == 0 then null else cs[i - 1]
        invariant Valid() && tree == PrunedFrom(t, root, p, i)
        invariant forall x :: x in tree.kids ==> x in t.kids
        invariant forall x :: x in t.kids && x !in tree.kids ==> Cleared(x)
        decreases i
      {
        curr := UnregisterLast(curr, p, t, i);
        i := i - 1;
      }
    }

    /** One turn: the i-th child of p, the last one left, goes. */
    method UnregisterLast(curr: Entry, ghost p: Entry, ghost t: Tree, ghost i: nat) returns (prev: Entry?)
      requires WellFormed(t, root) && p in t.kids && 0 < i <= |t.kids[p]| && curr == t.kids[p][i - 1]
      requires Valid() && tree == PrunedFrom(t, root, p, i)
      requires AllPrintable(t, root, Subtrees(t, root, t.kids[p]))
      modifies this`tree, tree.kids.Keys
      ensures Valid() && tree == PrunedFrom(t, root, p, i - 1)
      ensures prev == if i == 1 then null else t.kids[p][i - 2]
      ensures forall x :: x in tree.kids ==> x in old(tree.kids)
      ensures forall x :: x in old(tree.kids) && x !in tree.kids ==> Cleared(x)
      decreases Subtree(t, root, p), 0
    {
      LastLeft(t, root, p, i);
      LastChild(p);
      PruneChild(t, root, p, i);
      PrintableChild(t, root, p, i);
      prev := curr.prev;
      hide *;
      Unregister(curr);
    }

    lemma LastChild(p: Entry)
      requires Valid() && p in tree.kids && tree.kids[p] != []
      ensures var cs := tree.kids[p]; var c := cs[|cs| - 1];
        c in tree.kids && c in tree.up && c != root && c.registered && c.prev == Last(cs[..|cs| - 1])
    {
      var cs := tree.kids[p];
      var c := cs[|cs| - 1];
      Sibling(p, |cs| - 1);
      KidUp(tree, p, c);
      assert Headed(tree, c);
    }

    /** entryUnregister takes out exactly the entry and all below it. */
    method Unregister(e: Entry)
      requires Valid() && e != root && (e.registered <==> e in tree.kids)
      requires Allowed(tree, root, Op.Unregister(e))
      modifies this`tree, tree.kids.Keys
      ensures Valid() && tree == Apply(old(tree), root, Op.Unregister(e))
      ensures forall x :: x in tree.kids ==> x in old(tree.kids)
      ensures forall x :: x in old(tree.kids) && x !in tree.kids ==> Cleared(x)
      decreases Subtree(tree, root, e), 3
    {
      if !e.registered {
        return;
      }
      UnregisterSteps(tree, root, e);
      hide *;
      UnregisterChildren(e);
      TakeOut(e);
    }

    method UnregisterChildren(e: Entry)
      requires Valid() && e in tree.kids && AllPrintable(tree, root, Subtrees(tree, root, tree.kids[e]))
      modifies this`tree, tree.kids.Keys
      ensures Valid() && tree == PrunedFrom(old(tree), root, e, 0)
      ensures forall x :: x in old(tree.kids) && x !in tree.kids ==> Cleared(x)
      decreases Subtree(tree, root, e), 2
    {
      ChildrenSiblinged(e);
      if e.childs != null {
        UnregisterSiblings(e.childs, e);
      } else {
        PruneNone(tree, root, e);
      }
    }

    /** XPR_UPS_UnRegisterAll leaves the root alone. */
    method UnregisterAll()
      requires Valid() && AllPrintable(tree, root, Subtrees(tree, root, tree.kids[root]))
      modifies this`tree, tree.kids.Keys
      ensures Valid() && tree == PrunedFrom(old(tree), root, root, 0) && tree.kids.Keys == {root}
      ensures forall x :: x in old(tree.kids) && x != root ==> Cleared(x)
    {
      assert Headed(tree, root);
      PrunedToRoot(tree, root);
      UnregisterSiblings(root.childs, root);
      PrunedFromKids(old(tree), root, root, 0);
      assert Headed(tree, root);
      root.parent, root.prev, root.next, root.childs := null, null, null, null;
      assert Headed(tree, root);
    }

    // ----- registering

    /** Link the entry behind the last child of its parent. */
    method Link(e: Entry, parent: Entry)
      requires Valid() && parent in tree.kids && e !in tree.kids && GoodName(e.name)
      requires Find(tree.kids[parent], e.name) == null
      modifies this`tree, tree.kids.Keys, e
      ensures Valid() && tree == Grow(old(tree), parent, e)
      ensures e in tree.kids && forall x :: x in old(tree.kids) ==> x in tree.kids
    {
      hide Rooted, Upward, Downward, NamesDiffer, Grow, NextOf, PrevOf, AllLinked, AllHeaded, LinkedWith, HeadedWith;
      ghost var t := tree;
      RootIsTop(t, root, e);
      var child := LastOf(parent);
      Hang(e, parent, child, t, root);
      GrowKeeps(t, root, parent, e);
      LinkedGrow(t, root, parent, e);
      HeadedGrow(t, parent, e);
      GrowKeys(t, parent, e);
      tree := Grow(t, parent, e);
    }

    method LastOf(p: Entry) returns (child: Entry?)
      requires Valid() && p in tree.kids
      ensures child == Last(tree.kids[p]) && (child != null ==> child in tree.up && child in tree.kids)
    {
      ChildrenSiblinged(p);
      LastInTree(p);
      child := LastSibling(p.childs, tree.kids[p]);
    }

    lemma LastInTree(p: Entry)
      requires Valid() && p in tree.kids
      ensures p.childs == First(tree.kids[p])
      ensures var c := Last(tree.kids[p]); c != null ==> c in tree.up && c in tree.kids
    {
      assert Headed(tree, p);
      var c := Last(tree.kids[p]);
      if c != null { KidUp(tree, p, c); }
    }

    /** entryRegister */
    method Register(e: Entry, parent: Entry?) returns (err: Err)
      requires Valid() && (e.registered <==> e in tree.kids)
      requires Allowed(tree, root, Op.Register(e, parent))
      modifies this`tree, tree.kids.Keys, e
      ensures Valid() && tree == Apply(old(tree), root, Op.Register(e, parent))
      ensures err == RegisterErr(old(tree), root, e, parent)
      ensures err == Ok ==> e in tree.up && tree.up[e] == Target(old(tree), root, e, parent)
      ensures forall x :: x in old(tree.kids) && x !in tree.kids ==> Cleared(x)
    {
      RegisterPlace(tree, root, e, parent);
      assert WellFormed(tree, root);
      hide *;
      ghost var t := tree;
      var p := Place(e, parent);
      if p == null {
        return NotReady;
      }
      var temp := FindEntry(Some(e.name), p);
      if temp != null && !e.override {
        return Exist;
      }
      RegisterRoom(t, root, e, parent);
      if temp == null {
        Link(e, p);
      } else {
        Settle(e, p, temp);
      }
      err := Ok;
    }

    /** The entry of that name goes, and e takes its parent's last place. */
    method Settle(e: Entry, p: Entry, temp: Entry)
      requires Valid() && p in tree.kids && GoodName(e.name)
      requires temp in tree.kids && temp != root && AllPrintable(tree, root, Subtree(tree, root, temp))
      requires var r := Pruned(tree, root, temp);
        p in r.kids && p in r.depth && e !in r.kids && Find(r.kids[p], e.name) == null
      modifies this`tree, tree.kids.Keys, e
      ensures Valid() && tree == Grow(Pruned(old(tree), root, temp), p, e)
      ensures forall x :: x in old(tree.kids) && x !in tree.kids ==> Cleared(x)
    {
      hide *;
      Override(temp);
      Link(e, p);
    }

    method Place(e: Entry, parent: Entry?) returns (p: Entry?)
      requires Valid() && (parent != null ==> parent in tree.kids)
      requires parent == null && e.root.Some? ==> LookupTop(tree, root, e.root.value) < SEGMENT
      ensures p == Target(tree, root, e, parent) && (p != null ==> p in tree.kids)
    {
      p := parent;
      if p == null {
        p := FindEntry(e.root, null);
      }
    }

    method Override(temp: Entry)
      requires Valid() && temp in tree.kids && temp != root && AllPrintable(tree, root, Subtree(tree, root, temp))
      modifies this`tree, tree.kids.Keys
      ensures Valid() && tree == Pruned(old(tree), root, temp)
      ensures forall x :: x in tree.kids ==> x in old(tree.kids)
      ensures forall x :: x in old(tree.kids) && x !in tree.kids ==> Cleared(x)
    {
      assert Headed(tree, temp);
      Unregister(temp);
    }
  }

  lemma PrunedToRoot(t: Tree, root: Entry)
    requires WellFormed(t, root)
    ensures PrunedFrom(t, root, root, 0).kids.Keys == {root}
  {
    PrunedFromKids(t, root, root, 0);
    var r := PrunedFrom(t, root, root, 0);
    forall x | x in r.kids ensures x == root { NothingBelow(r, root, x); }
  }

  lemma {:induction false} NothingBelow(t: Tree, root: Entry, x: Entry)
    requires WellFormed(t, root) && x in t.kids && t.kids[root] == []
    ensures x == root
    decreases t.depth[x]
  {
    if x in t.up { NothingBelow(t, root, t.up[x]); }
  }
}
