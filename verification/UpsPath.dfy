/** Printing an entry's path and finding an entry by its path (src/xpr_ups.c), as functions of the tree. */
module UpsPath {
  import opened Common
  import opened UpsTree

  // ----- printing

  /** What entryFullName has printed when it has come down to e: for '.' the first name has no separator. */
  ghost function Printed(t: Tree, root: Entry, e: Entry, sep: char): string
    requires WellFormed(t, root) && e in t.kids
    decreases t.depth[e]
  {
    if e == root then ""
    else
      var p := t.up[e];
      Printed(t, root, p, sep) + (if sep == '.' && p == root then "" else [sep]) + e.name
  }

  ghost function FullName(t: Tree, root: Entry, e: Entry, sep: char): string
    requires WellFormed(t, root) && e in t.kids
  {
    if e == root then root.name else Printed(t, root, e, sep)
  }

  // ----- finding

  ghost function SkipSlash(s: string): string {
    if s != "" && s[0] == '/' then SkipSlash(s[1..]) else s
  }

  /** The characters in front of the first separator. */
  ghost function Name(s: string): (n: string)
    ensures |n| <= |s| && n == s[..|n|]
  {
    if s == "" || IsSep(s[0]) then "" else [s[0]] + Name(s[1..])
  }

  /** Go down from e along `s`, which is empty or starts with a separator. A separator with no name behind
      it ends the walk, and then only a directory is found. */
  ghost function Walk(t: Tree, e: Entry, s: string): Entry?
    decreases |s|
  {
    if s == "" || e !in t.kids then e
    else
      var n := Name(s[1..]);
      if n == "" then (if e.dir then e else null)
      else
        var c := Find(t.kids[e], n);
        if c == null then null else Walk(t, c, s[1 + |n|..])
  }

  /** Go down from e along `s`, whose first name comes without a separator. */
  ghost function Descent(t: Tree, e: Entry, s: string): Entry?
    requires e in t.kids
  {
    var c := Find(t.kids[e], Name(s));
    if c == null then null else Walk(t, c, s[|Name(s)|..])
  }

  /** findEntry below a given parent. */
  ghost function Lookup(t: Tree, parent: Entry, key: string): Entry?
    requires parent in t.kids
  {
    if key == "" || key == "/" then parent else Descent(t, parent, SkipSlash(key))
  }

  // ----- the fixed buffers

  /** The room for one segment of a key (src/xpr_ups.c:389), for the entries of a chain (src/xpr_ups.c:119) and
      for the name printed when an entry is unregistered (src/xpr_ups.c:284). */
  const SEGMENT := 256
  const LEVELS := 32
  const PRINTED := 256

  function Max(a: nat, b: nat): nat { if a < b then b else a }

  /** The last index of the segment buffer that the walk along `s` writes: every segment is copied with its
      separator, and a zero goes behind it. */
  ghost function WalkTop(t: Tree, e: Entry, s: string): nat
    decreases |s|
  {
    if s == "" || e !in t.kids then 0
    else
      var n := Name(s[1..]);
      var c := Find(t.kids[e], n);
      Max(1 + |n|, if n == "" || c == null then 0 else WalkTop(t, c, s[1 + |n|..]))
  }

  ghost function DescentTop(t: Tree, e: Entry, s: string): nat
    requires e in t.kids
  {
    var c := Find(t.kids[e], Name(s));
    Max(|Name(s)|, if c == null then 0 else WalkTop(t, c, s[|Name(s)|..]))
  }

  ghost function LookupTop(t: Tree, parent: Entry, key: string): nat
    requires parent in t.kids
  {
    if key == "" || key == "/" then 0 else DescentTop(t, parent, SkipSlash(key))
  }

  lemma {:induction false} WalkTopInKey(t: Tree, e: Entry, s: string)
    ensures WalkTop(t, e, s) <= |s|
    decreases |s|
  {
    if s != "" && e in t.kids {
      var n := Name(s[1..]);
      var c := Find(t.kids[e], n);
      if n != "" && c != null { WalkTopInKey(t, c, s[1 + |n|..]); }
    }
  }

  lemma {:induction false} SkipSlashShorter(s: string)
    ensures |SkipSlash(s)| <= |s|
  {
    if s != "" && s[0] == '/' { SkipSlashShorter(s[1..]); }
  }

  /** A key shorter than the buffer always fits. */
  lemma LookupTopInKey(t: Tree, parent: Entry, key: string)
    requires parent in t.kids
    ensures LookupTop(t, parent, key) <= |key| && (|key| < 256 ==> LookupTop(t, parent, key) < SEGMENT)
  {
    var s := SkipSlash(key);
    SkipSlashShorter(key);
    var c := Find(t.kids[parent], Name(s));
    if c != null { WalkTopInKey(t, c, s[|Name(s)|..]); }
  }

  /** e and the entries above it, up to the root. */
  ghost function Chain(t: Tree, root: Entry, e: Entry): seq<Entry>
    requires WellFormed(t, root) && e in t.kids
    decreases t.depth[e]
  {
    [e] + if e == root then [] else Chain(t, root, t.up[e])
  }

  lemma {:induction false} ChainFacts(t: Tree, root: Entry, e: Entry)
    requires WellFormed(t, root) && e in t.kids
    ensures var s := Chain(t, root, e);
      && |s| > 0 && s[0] == e && s[|s| - 1] == root && (|s| == 1 <==> e == root)
      && forall i :: 0 <= i < |s| ==> s[i] in t.kids
    decreases t.depth[e]
  {
    if e != root { ChainFacts(t, root, t.up[e]); }
  }

  /** The chain has room exactly for the entries less than 32 levels below the root; a path can be printed if and
      only if it has less than 256 characters too. */
  lemma {:induction false} ChainLevels(t: Tree, root: Entry, e: Entry)
    requires WellFormed(t, root) && e in t.kids
    ensures Printable(t, root, e) <==>
      t.depth[e] < t.depth[root] + 32 && |FullName(t, root, e, '.')| < 256
    ensures |Chain(t, root, e)| + t.depth[root] == t.depth[e] + 1
    ensures |Chain(t, root, e)| <= LEVELS <==> t.depth[e] < t.depth[root] + 32
    decreases t.depth[e]
  {
    if e != root { ChainLevels(t, root, t.up[e]); }
  }

  /** What one turn of the printing loop adds. */
  lemma {:induction false} PrintedAt(t: Tree, root: Entry, e: Entry, n: nat, sep: char)
    requires WellFormed(t, root) && e in t.kids && n + 1 < |Chain(t, root, e)|
    ensures var s := Chain(t, root, e);
      && s[n] in t.kids && s[n + 1] in t.kids
      && Printed(t, root, s[n], sep)
         == Printed(t, root, s[n + 1], sep) + (if sep == '.' && n + 2 == |s| then "" else [sep]) + s[n].name
      && |Printed(t, root, s[n], sep)| <= |Printed(t, root, e, sep)|
    decreases n
  {
    ChainFacts(t, root, e);
    ChainFacts(t, root, t.up[e]);
    if n > 0 { PrintedAt(t, root, t.up[e], n - 1, sep); }
  }

  /** Does the entry's path fit the buffers that unregistering prints it with? */
  ghost predicate Printable(t: Tree, root: Entry, e: Entry)
    requires WellFormed(t, root) && e in t.kids
  {
    |Chain(t, root, e)| <= LEVELS && |FullName(t, root, e, '.')| < PRINTED
  }

  ghost predicate AllPrintable(t: Tree, root: Entry, es: set<Entry>)
    requires WellFormed(t, root)
  {
    forall e {:trigger Printable(t, root, e)} :: e in es && e in t.kids ==> Printable(t, root, e)
  }

  /** Cutting other entries changes no path. */
  lemma {:induction false} PathOfCut(t: Tree, root: Entry, gone: set<Entry>, e: Entry, sep: char)
    requires WellFormed(t, root) && Closed(t, gone) && root !in gone && e in t.kids && e !in gone
    requires WellFormed(Cut(t, gone), root)
    ensures Chain(Cut(t, gone), root, e) == Chain(t, root, e)
    ensures Printed(Cut(t, gone), root, e, sep) == Printed(t, root, e, sep)
    ensures FullName(Cut(t, gone), root, e, sep) == FullName(t, root, e, sep)
    decreases t.depth[e]
  {
    if e in t.up { PathOfCut(t, root, gone, t.up[e], sep); }
  }

  /** Nor does one more entry. */
  lemma {:induction false} PathOfGrow(t: Tree, root: Entry, p: Entry, e: Entry, x: Entry, sep: char)
    requires WellFormed(t, root) && p in t.kids && e !in t.kids && x in t.kids && WellFormed(Grow(t, p, e), root)
    ensures Printed(Grow(t, p, e), root, x, sep) == Printed(t, root, x, sep)
    ensures FullName(Grow(t, p, e), root, x, sep) == FullName(t, root, x, sep)
    decreases t.depth[x]
  {
    if x in t.up { PathOfGrow(t, root, p, e, t.up[x], sep); }
  }

  /** The last child left can be printed when all children can. */
  lemma PrintableChild(t: Tree, root: Entry, p: Entry, i: nat)
    requires WellFormed(t, root) && p in t.kids && 0 < i <= |t.kids[p]|
    requires AllPrintable(t, root, Subtrees(t, root, t.kids[p]))
    requires WellFormed(PrunedFrom(t, root, p, i), root)
    ensures var r := PrunedFrom(t, root, p, i); AllPrintable(r, root, Subtree(r, root, t.kids[p][i - 1]))
  {
    var cs := t.kids[p];
    var c, gone := cs[i - 1], Subtrees(t, root, cs[i..]);
    SubtreesClosed(t, root, p, cs[i..]);
    PrunedFromKids(t, root, p, i);
    KidUp(t, p, c);
    forall e | e in t.kids && e !in gone && Under(Cut(t, gone), root, c, e) ensures Printable(Cut(t, gone), root, e) {
      assert Cut(t, gone).kids[p][i - 1] == c;
      KidUp(Cut(t, gone), p, c);
      UnderOfCut(t, root, gone, c, e);
      SubtreesIs(t, root, cs, e);
      PathOfCut(t, root, gone, e, '.');
      assert Printable(t, root, e);
    }
  }

  /** With all children gone the entry's own path is the one it had. */
  lemma PrintableSelf(t: Tree, root: Entry, e: Entry)
    requires WellFormed(t, root) && e in t.up && AllPrintable(t, root, Subtree(t, root, e))
    ensures AllPrintable(t, root, Subtrees(t, root, t.kids[e]))
    ensures var r := PrunedFrom(t, root, e, 0); WellFormed(r, root) && e in r.kids && Printable(r, root, e)
  {
    SubtreeIsKids(t, root, e);
    SubtreeFacts(t, root, e);
    PrunedFromKids(t, root, e, 0);
    SubtreesClosed(t, root, e, t.kids[e][0..]);
    PathOfCut(t, root, Subtrees(t, root, t.kids[e][0..]), e, '.');
    assert Printable(t, root, e);
  }

  // ----- a path leads to the entry it was printed for

  lemma {:induction false} NameStops(n: string, s: string)
    requires forall i :: 0 <= i < |n| ==> !IsSep(n[i])
    requires s == "" || IsSep(s[0])
    ensures Name(n + s) == n
  {
    if n == "" {
      assert n + s == s;
    } else {
      NameStops(n[1..], s);
      assert (n + s)[1..] == n[1..] + s;
    }
  }

  /** One level down. */
  lemma WalkStep(t: Tree, e: Entry, sep: char, n: string, s: string)
    requires e in t.kids && GoodName(n) && (s == "" || IsSep(s[0]))
    ensures var c := Find(t.kids[e], n); Walk(t, e, [sep] + n + s) == if c == null then null else Walk(t, c, s)
  {
    var w := [sep] + n + s;
    assert w[1..] == n + s && w[1 + |n|..] == s;
    NameStops(n, s);
  }

  lemma WalkDown(t: Tree, root: Entry, x: Entry, sep: char, s: string)
    requires WellFormed(t, root) && x in t.up && IsSep(sep) && (s == "" || IsSep(s[0]))
    ensures t.up[x] in t.kids
    ensures Walk(t, t.up[x], [sep] + x.name + s) == Walk(t, x, s)
  {
    WalkStep(t, t.up[x], sep, x.name, s);
    FindIs(t.kids[t.up[x]], x);
  }

  /** Every name of the path behind its separator. */
  ghost function Spelled(t: Tree, root: Entry, e: Entry, sep: char): string
    requires WellFormed(t, root) && e in t.kids
    decreases t.depth[e]
  {
    if e == root then "" else Spelled(t, root, t.up[e], sep) + [sep] + e.name
  }

  lemma {:induction false} WalkPath(t: Tree, root: Entry, e: Entry, sep: char, s: string)
    requires WellFormed(t, root) && e in t.kids && IsSep(sep) && (s == "" || IsSep(s[0]))
    ensures Walk(t, root, Spelled(t, root, e, sep) + s) == Walk(t, e, s)
    decreases t.depth[e]
  {
    if e == root {
      assert "" + s == s;
    } else {
      var p := t.up[e];
      WalkDown(t, root, e, sep, s);
      WalkPath(t, root, p, sep, [sep] + e.name + s);
      Assoc(Spelled(t, root, p, sep), [sep], e.name);
      Assoc(Spelled(t, root, p, sep), [sep] + e.name, s);
    }
  }

  lemma {:induction false} PrintedIsSpelled(t: Tree, root: Entry, e: Entry, sep: char)
    requires WellFormed(t, root) && e in t.up && IsSep(sep)
    ensures Spelled(t, root, e, sep) == (if sep == '.' then [sep] else "") + Printed(t, root, e, sep)
    ensures var k := Spelled(t, root, e, sep); |k| >= 2 && k[0] == sep && !IsSep(k[1])
    decreases t.depth[e]
  {
    var p := t.up[e];
    if p != root { PrintedIsSpelled(t, root, p, sep); }
    PrintedStep(Spelled(t, root, p, sep), Printed(t, root, p, sep), sep, e.name, p == root);
  }

  lemma PrintedStep(k: string, r: string, sep: char, n: string, top: bool)
    requires GoodName(n) && (top ==> k == "" && r == "")
    requires !top ==> k == (if sep == '.' then [sep] else "") + r && |k| >= 2 && k[0] == sep && !IsSep(k[1])
    ensures k + [sep] + n == (if sep == '.' then [sep] else "") + (r + (if sep == '.' && top then "" else [sep]) + n)
    ensures var m := k + [sep] + n; |m| >= 2 && m[0] == sep && !IsSep(m[1])
  {
    var m := k + [sep] + n;
    if top { assert m == [sep] + n; } else { assert m[0] == k[0] && m[1] == k[1]; }
  }

  /** Looking below the root for a key with no separator in front is walking with one. */
  lemma LookupIsWalk(t: Tree, root: Entry, key: string, sep: char)
    requires root in t.kids && key != "" && !IsSep(key[0])
    ensures Lookup(t, root, key) == Walk(t, root, [sep] + key)
    ensures Lookup(t, root, ['/'] + key) == Walk(t, root, [sep] + key)
  {
    var w := [sep] + key;
    assert w[1..] == key && Name(key) != "";
    assert w[1 + |Name(key)|..] == key[|Name(key)|..];
    assert (['/'] + key)[1..] == key;
  }

  /** The path round trip: the name printed for any entry of the tree, with either separator, finds that entry. */
  lemma PathRoundTrip(t: Tree, root: Entry, e: Entry, sep: char)
    requires WellFormed(t, root) && e in t.kids && (sep == '/' || sep == '.') && root.name == "/"
    ensures Lookup(t, root, FullName(t, root, e, sep)) == e
  {
    if e != root {
      var k := Spelled(t, root, e, sep);
      PrintedIsSpelled(t, root, e, sep);
      WalkPath(t, root, e, sep, "");
      assert k + "" == k == [sep] + k[1..];
      LookupIsWalk(t, root, k[1..], sep);
      assert Printed(t, root, e, sep) == if sep == '.' then k[1..] else k;
    }
  }

  /** With a separator behind it, the path finds only a directory. */
  lemma TrailingSeparator(t: Tree, root: Entry, e: Entry, sep: char)
    requires WellFormed(t, root) && e in t.up && (sep == '/' || sep == '.')
    ensures Lookup(t, root, FullName(t, root, e, sep) + [sep]) == if e.dir then e else null
  {
    var k, path := Spelled(t, root, e, sep), FullName(t, root, e, sep);
    PrintedIsSpelled(t, root, e, sep);
    WalkPath(t, root, e, sep, [sep]);
    var key := k[1..] + [sep];
    assert k + [sep] == [sep] + key && key[0] == k[1];
    LookupIsWalk(t, root, key, sep);
    assert path + [sep] == if sep == '.' then key else [sep] + key;
    assert [sep][1..] == "";
  }

  /** A slash in front changes nothing, but that "//" names nothing where "/" names the parent. */
  lemma LeadingSlash(t: Tree, root: Entry, parent: Entry, key: string)
    requires WellFormed(t, root) && parent in t.kids
    ensures Lookup(t, parent, ['/'] + key) == if key == "/" then null else Lookup(t, parent, key)
  {
    assert (['/'] + key)[1..] == key;
    if key == "" {
      assert ['/'] + key == "/";
    } else if key == "/" {
      forall c | c in t.kids[parent] ensures c.name != "" { KidUp(t, parent, c); }
      FindFacts(t.kids[parent], "");
      assert key[1..] == "" && SkipSlash(key) == "";
    }
  }

  // ----- which paths name something

  /** The names, each behind its separator. */
  ghost function Path(names: seq<string>, sep: char): string {
    if names == [] then "" else [sep] + names[0] + Path(names[1..], sep)
  }

  /** Going down along names from e ends at the entry whose path goes on from e's with them, if at any. */
  lemma {:induction false} WalkFinds(t: Tree, root: Entry, e: Entry, names: seq<string>, sep: char)
    requires WellFormed(t, root) && e in t.kids && IsSep(sep) && forall i :: 0 <= i < |names| ==> GoodName(names[i])
    ensures var r := Walk(t, e, Path(names, sep));
      r != null ==> r in t.kids && Spelled(t, root, r, sep) == Spelled(t, root, e, sep) + Path(names, sep)
    decreases |names|
  {
    if names != [] {
      var n, s := names[0], Path(names[1..], sep);
      WalkStep(t, e, sep, n, s);
      var c := Find(t.kids[e], n);
      FindFacts(t.kids[e], n);
      if c != null {
        KidUp(t, e, c);
        WalkFinds(t, root, c, names[1..], sep);
        Assoc(Spelled(t, root, e, sep) + [sep], n, s);
        Assoc(Spelled(t, root, e, sep), [sep], n + s);
        Assoc([sep], n, s);
      }
    }
  }

  /** A path of names finds nothing if and only if it is no entry's full name. */
  lemma LookupExactly(t: Tree, root: Entry, names: seq<string>, sep: char)
    requires WellFormed(t, root) && root.name == "/" && (sep == '/' || sep == '.')
    requires names != [] && forall i :: 0 <= i < |names| ==> GoodName(names[i])
    ensures var key := if sep == '.' then Path(names, sep)[1..] else Path(names, sep);
      Lookup(t, root, key) == null <==> forall e :: e in t.kids ==> FullName(t, root, e, sep) != key
  {
    var k := Path(names, sep);
    var key := if sep == '.' then k[1..] else k;
    assert k[0] == sep && k[1] == names[0][0];
    assert k == [sep] + k[1..];
    LookupIsWalk(t, root, k[1..], sep);
    WalkFinds(t, root, root, names, sep);
    var r := Lookup(t, root, key);
    if r != null {
      assert "" + k == k;
      PrintedIsSpelled(t, root, r, sep);
      assert FullName(t, root, r, sep) == key;
    } else {
      forall e | e in t.kids ensures FullName(t, root, e, sep) != key { PathRoundTrip(t, root, e, sep); }
    }
  }

  /** Two entries never have the same path. */
  lemma PathsDiffer(t: Tree, root: Entry, d: Entry, e: Entry, sep: char)
    requires WellFormed(t, root) && d in t.kids && e in t.kids && (sep == '/' || sep == '.') && root.name == "/"
    requires FullName(t, root, d, sep) == FullName(t, root, e, sep)
    ensures d == e
  {
    PathRoundTrip(t, root, d, sep);
    PathRoundTrip(t, root, e, sep);
  }

  /** A plain name finds the child of that name. */
  lemma LookupChild(t: Tree, parent: Entry, name: string)
    requires parent in t.kids && GoodName(name)
    ensures Lookup(t, parent, name) == Find(t.kids[parent], name) && LookupTop(t, parent, name) == |name|
  {
    NameStops(name, "");
    assert name + "" == name;
  }

  /** A key with a dot in front finds nothing. */
  lemma LeadingDotFindsNothing(t: Tree, root: Entry, parent: Entry, key: string)
    requires WellFormed(t, root) && parent in t.kids
    ensures Lookup(t, parent, ['.'] + key) == null
  {
    forall c | c in t.kids[parent] ensures c.name != "" { KidUp(t, parent, c); }
    FindFacts(t.kids[parent], "");
    var w := ['.'] + key;
    assert w[0] == '.' && SkipSlash(w) == w && Name(w) == "";
  }

  /** What is found lies in the tree. */
  lemma {:induction false} WalkFindsEntry(t: Tree, root: Entry, e: Entry, s: string)
    requires WellFormed(t, root) && e in t.kids
    ensures var r := Walk(t, e, s); r != null ==> r in t.kids
    decreases |s|
  {
    if s != "" {
      var n := Name(s[1..]);
      var c := Find(t.kids[e], n);
      FindFacts(t.kids[e], n);
      if n != "" && c != null {
        KidUp(t, e, c);
        WalkFindsEntry(t, root, c, s[1 + |n|..]);
      }
    }
  }

  lemma LookupFindsEntry(t: Tree, root: Entry, parent: Entry, key: string)
    requires WellFormed(t, root) && parent in t.kids
    ensures var r := Lookup(t, parent, key); r != null ==> r in t.kids
  {
    var s := SkipSlash(key);
    var c := Find(t.kids[parent], Name(s));
    FindFacts(t.kids[parent], Name(s));
    if c != null {
      KidUp(t, parent, c);
      WalkFindsEntry(t, root, c, s[|Name(s)|..]);
    }
  }
}
