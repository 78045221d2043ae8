/** Path resolution, and directory tables that form a tree. */
module Paths {
  import opened TinyFsModel

  // ---- splitting a path ----

  /** Index of the first '/' from `i` on, or the length. */
  function SlashFrom(path: string, i: nat): (j: nat)
    requires i <= |path|
    ensures i <= j <= |path| && (j < |path| ==> path[j] == '/')
    decreases |path| - i
  {
    if i == |path| || path[i] == '/' then i else SlashFrom(path, i + 1)
  }

  function Word(w: string): seq<string> { if w == "" then [] else [w] }

  /** Where to go on after a word that ends at `j`. */
  function After(path: string, j: nat): (n: nat)
    requires j <= |path|
    ensures j <= n <= |path|
  {
    if j < |path| then j + 1 else j
  }

  /** The components of a path from index `p` on: split on '/', empty ones dropped. */
  function PartsFrom(path: string, p: nat): seq<string>
    requires p <= |path|
    decreases |path| - p
  {
    if p == |path| then []
    else var j := SlashFrom(path, p); Word(path[p..j]) + PartsFrom(path, After(path, j))
  }

  function Parts(path: string): seq<string> { PartsFrom(path, 0) }

  /** `w` shows from `i` on what `b` shows from `q` on. */
  ghost predicate SameFrom(w: string, i: nat, b: string, q: nat) {
    i <= |w| && q <= |b| && w[i..] == b[q..]
  }

  lemma {:induction false} SlashBehind(w: string, i: nat, b: string, q: nat)
    requires SameFrom(w, i, b, q)
    ensures SlashFrom(w, i) - i == SlashFrom(b, q) - q
    decreases |b| - q
  {
    assert |w| - i == |w[i..]| == |b| - q;
    if q < |b| {
      assert w[i] == w[i..][0] == b[q];
      assert w[i + 1..] == w[i..][1..] == b[q + 1..];
      if b[q] != '/' {
        SlashBehind(w, i + 1, b, q + 1);
      }
    }
  }

  lemma PartsUnfold(path: string, p: nat, j: nat)
    requires p < |path| && j == SlashFrom(path, p)
    ensures PartsFrom(path, p) == Word(path[p..j]) + PartsFrom(path, After(path, j))
  {}

  /** What stands before a path does not change the components behind it. */
  lemma {:induction false} PartsBehind(w: string, i: nat, b: string, q: nat)
    requires SameFrom(w, i, b, q)
    ensures PartsFrom(w, i) == PartsFrom(b, q)
    decreases |b| - q
  {
    assert |w| - i == |w[i..]| == |b| - q;
    if q < |b| {
      var j, k := SlashFrom(b, q), SlashFrom(w, i);
      SlashBehind(w, i, b, q);
      WordBehind(w, i, k, b, q, j);
      PartsUnfold(w, i, k);
      PartsUnfold(b, q, j);
      PartsBehind(w, After(w, k), b, After(b, j));
    }
  }

  lemma WordBehind(w: string, i: nat, k: nat, b: string, q: nat, j: nat)
    requires SameFrom(w, i, b, q) && i <= k <= |w| && q <= j <= |b| && k - i == j - q
    ensures w[i..k] == b[q..j]
    ensures SameFrom(w, After(w, k), b, After(b, j))
  {
    assert w[i..k] == w[i..][..k - i];
    assert b[q..j] == b[q..][..j - q];
    assert |w| - i == |w[i..]| == |b| - q;
    var n := After(w, k) - i;
    assert w[After(w, k)..] == w[i..][n..];
    assert b[After(b, j)..] == b[q..][n..];
  }

  /** `w` begins with `a`, and a slash follows. */
  ghost predicate CutAt(w: string, a: string) {
    |a| < |w| && w[|a|] == '/' && forall k | 0 <= k < |a| :: w[k] == a[k]
  }

  lemma {:induction false} SlashBefore(w: string, a: string, p: nat)
    requires CutAt(w, a) && p <= |a|
    ensures SlashFrom(w, p) == SlashFrom(a, p)
    decreases |a| - p
  {
    if p < |a| && a[p] != '/' {
      SlashBefore(w, a, p + 1);
    }
  }

  lemma WordBefore(w: string, a: string, i: nat, j: nat)
    requires CutAt(w, a) && i <= j <= |a|
    ensures w[i..j] == a[i..j]
  {}

  lemma Regroup<T>(whole: seq<T>, front: seq<T>, word: seq<T>, tail: seq<T>, mid: seq<T>, rest: seq<T>)
    requires whole == word + tail && tail == mid + rest && front == word + mid
    ensures whole == front + rest
  {}

  lemma UnfoldToSlash(path: string, p: nat, j: nat, word: string)
    requires p <= j < |path| && j == SlashFrom(path, p) && word == path[p..j]
    ensures PartsFrom(path, p) == Word(word) + PartsFrom(path, j + 1)
  {}

  /** From `p` on, `w` has the components of `a` and then `rest`. */
  ghost predicate Splits(w: string, a: string, p: nat, rest: seq<string>) {
    p <= |a| && p <= |w| && PartsFrom(w, p) == PartsFrom(a, p) + rest
  }

  lemma CutAfterWord(w: string, a: string, p: nat, j: nat, n: nat, rest: seq<string>)
    requires CutAt(w, a) && p <= j < |a| && j == SlashFrom(a, p) && n == j + 1 && Splits(w, a, n, rest)
    ensures Splits(w, a, p, rest)
  {
    var word := a[p..j];
    SlashBefore(w, a, p);
    WordBefore(w, a, p, j);
    UnfoldToSlash(w, p, j, word);
    UnfoldToSlash(a, p, j, word);
    Regroup(PartsFrom(w, p), PartsFrom(a, p), Word(word), PartsFrom(w, j + 1), PartsFrom(a, j + 1), rest);
  }

  lemma CutAtWord(w: string, a: string, p: nat, rest: seq<string>)
    requires CutAt(w, a) && p <= |a| && SlashFrom(a, p) == |a| && rest == PartsFrom(w, |a| + 1)
    ensures Splits(w, a, p, rest)
  {
    SlashBefore(w, a, p);
    WordBefore(w, a, p, |a|);
    UnfoldToSlash(w, p, |a|, a[p..|a|]);
    LastWord(a, p);
  }

  /** A path cut at a slash falls into the components of its two parts. */
  lemma {:induction false} PartsCut(w: string, a: string, p: nat, rest: seq<string>)
    requires CutAt(w, a) && p <= |a| && rest == PartsFrom(w, |a| + 1)
    ensures Splits(w, a, p, rest)
    decreases |a| - p
  {
    var j := SlashFrom(a, p);
    if j < |a| {
      var n := j + 1;
      PartsCut(w, a, n, rest);
      CutAfterWord(w, a, p, j, n, rest);
    } else {
      CutAtWord(w, a, p, rest);
    }
  }

  lemma LeadingSlashOf(c: string)
    requires c != "" && c[0] == '/'
    ensures Parts(c) == PartsFrom(c, 1)
  {
    PartsUnfold(c, 0, 0);
  }

  lemma LastWord(a: string, p: nat)
    requires p <= |a| && SlashFrom(a, p) == |a|
    ensures PartsFrom(a, p) == Word(a[p..|a|])
  {
    if p == |a| {
      assert a[p..|a|] == "";
    }
  }

  lemma LeadingSlash(a: string)
    ensures Parts("/" + a) == Parts(a)
  {
    LeadingSlashOf("/" + a);
    assert ("/" + a)[1..] == a[0..];
    PartsBehind("/" + a, 1, a, 0);
  }

  /** Joining two paths with a slash joins their components. */
  lemma PartsJoin(a: string, b: string)
    ensures Parts(a + "/" + b) == Parts(a) + Parts(b)
  {
    var w := a + "/" + b;
    PartsCut(w, a, 0, PartsFrom(w, |a| + 1));
    assert w[|a| + 1..] == b[0..];
    PartsBehind(w, |a| + 1, b, 0);
  }

  lemma TrailingSlash(a: string)
    ensures Parts(a + "/") == Parts(a)
  {
    PartsJoin(a, "");
    assert a + "/" + "" == a + "/";
  }

  /** Repeated slashes make no difference. */
  lemma DoubleSlash(a: string, b: string)
    ensures Parts(a + "//" + b) == Parts(a + "/" + b)
  {
    assert a + "/" + ("/" + b) == a + "//" + b;
    PartsJoin(a, "/" + b);
    LeadingSlash(b);
    PartsJoin(a, b);
  }

  function Join(cs: seq<string>): string {
    if cs == [] then "" else "/" + cs[0] + Join(cs[1..])
  }

  predicate ProperName(c: string) { c != "" && '/' !in c }

  /** Every list of proper names is the components of a path. */
  lemma {:induction false} PartsOfJoin(cs: seq<string>)
    requires forall i | 0 <= i < |cs| :: ProperName(cs[i])
    ensures Parts(Join(cs)) == cs
    decreases |cs|
  {
    if cs != [] {
      var c, rest := cs[0], Join(cs[1..]);
      PartsOfJoin(cs[1..]);
      LeadingSlash(c + rest);
      assert Join(cs) == "/" + (c + rest);
      NameThenRest(c, rest);
    }
  }

  lemma {:induction false} NoSlash(c: string, p: nat)
    requires '/' !in c && p <= |c|
    ensures SlashFrom(c, p) == |c|
    decreases |c| - p
  {
    if p < |c| {
      NoSlash(c, p + 1);
    }
  }

  lemma OneName(c: string)
    requires ProperName(c)
    ensures Parts(c) == [c]
  {
    NoSlash(c, 0);
    LastWord(c, 0);
    assert c[0..|c|] == c;
  }

  lemma NameThenRest(c: string, rest: string)
    requires ProperName(c) && (rest != "" ==> rest[0] == '/')
    ensures Parts(c + rest) == [c] + Parts(rest)
  {
    OneName(c);
    if rest == "" {
      assert c + rest == c;
    } else {
      NameThenSlash(c + rest, c, rest);
    }
  }

  lemma NameThenSlash(w: string, c: string, rest: string)
    requires w == c + rest && rest != "" && rest[0] == '/'
    ensures Parts(w) == Parts(c) + Parts(rest)
  {
    PartsCut(w, c, 0, PartsFrom(w, |c| + 1));
    assert w[|c| + 1..] == rest[1..];
    PartsBehind(w, |c| + 1, rest, 1);
    LeadingSlashOf(rest);
  }

  // ---- walking the directories ----

  /** One directory lookup; 0 is ENOENT. */
  function Lookup(dirs: map<nat, Names>, ino: nat, name: string): nat {
    if name in Entries(dirs, ino) then Entries(dirs, ino)[name] else 0
  }

  function Walk(dirs: map<nat, Names>, ino: nat, cs: seq<string>): nat
    decreases |cs|
  {
    if cs == [] then ino
    else if cs[0] in Entries(dirs, ino) then Walk(dirs, Entries(dirs, ino)[cs[0]], cs[1..])
    else 0
  }

  function Resolve(dirs: map<nat, Names>, path: string): nat { Walk(dirs, ROOT, Parts(path)) }

  lemma {:induction false} WalkAppend(dirs: map<nat, Names>, ino: nat, xs: seq<string>, ys: seq<string>)
    requires Walk(dirs, ino, xs) != 0
    ensures Walk(dirs, ino, xs + ys) == Walk(dirs, Walk(dirs, ino, xs), ys)
    decreases |xs|
  {
    if xs == [] {
      assert xs + ys == ys;
    } else {
      assert (xs + ys)[1..] == xs[1..] + ys;
      WalkAppend(dirs, Entries(dirs, ino)[xs[0]], xs[1..], ys);
    }
  }

  /** Resolving a/b is resolving b from where a leads, whenever a leads somewhere. */
  lemma ResolveJoin(dirs: map<nat, Names>, a: string, b: string)
    requires Resolve(dirs, a) != 0
    ensures Resolve(dirs, a + "/" + b) == Walk(dirs, Resolve(dirs, a), Parts(b))
  {
    PartsJoin(a, b);
    WalkAppend(dirs, ROOT, Parts(a), Parts(b));
  }

  /** One component more is one lookup more; only slashes lead to inode 2, the root. */
  lemma ResolveEntry(dirs: map<nat, Names>, a: string, name: string)
    requires Resolve(dirs, a) != 0 && ProperName(name)
    ensures var d := Resolve(dirs, a);
      Resolve(dirs, a + "/" + name) == if d in dirs && name in dirs[d] then dirs[d][name] else 0
    ensures Resolve(dirs, "") == Resolve(dirs, "/") == 2
  {
    ResolveJoin(dirs, a, name);
    OneName(name);
    assert [name][1..] == [];
    LeadingSlash("");
    assert "/" + "" == "/";
  }

  lemma NoSuchName(dirs: map<nat, Names>, ino: nat, name: string, s: seq<string>)
    requires name !in Entries(dirs, ino)
    ensures Walk(dirs, ino, [name] + s) == 0
  {}

  /** A component that is missing ends the matter, whatever follows it. */
  lemma MissingIsFinal(dirs: map<nat, Names>, a: string, name: string, s: string)
    requires Resolve(dirs, a) != 0 && ProperName(name)
    requires var d := Resolve(dirs, a); d !in dirs || name !in dirs[d]
    ensures Resolve(dirs, a + "/" + name + "/" + s) == 0
  {
    PartsJoin(a + "/" + name, s);
    PartsJoin(a, name);
    OneName(name);
    assert Parts(a) + [name] + Parts(s) == Parts(a) + ([name] + Parts(s));
    WalkAppend(dirs, ROOT, Parts(a), [name] + Parts(s));
    NoSuchName(dirs, Resolve(dirs, a), name, Parts(s));
  }

  // ---- trees ----

  ghost predicate Entry(dirs: map<nat, Names>, dir: nat, name: string) { name in Entries(dirs, dir) }

  ghost predicate Reached(dirs: map<nat, Names>, ino: nat) {
    exists cs :: Walk(dirs, ROOT, cs) == ino
  }

  /** No entry leads to 0 or back to the root, no inode has two names, and every directory in use hangs
      from the root. */
  ghost predicate Tree(dirs: map<nat, Names>) {
    && (forall n :: !Entry(dirs, 0, n))
    && (forall d, n {:trigger Entry(dirs, d, n)} | Entry(dirs, d, n) ::
          Entries(dirs, d)[n] != 0 && Entries(dirs, d)[n] != ROOT && Reached(dirs, d))
    && (forall d, n, e, m {:trigger Entry(dirs, d, n), Entry(dirs, e, m)} |
          Entry(dirs, d, n) && Entry(dirs, e, m) && Entries(dirs, d)[n] == Entries(dirs, e)[m] :: d == e && n == m)
  }

  ghost function PathTo(dirs: map<nat, Names>, ino: nat): (cs: seq<string>)
    requires Reached(dirs, ino)
    ensures Walk(dirs, ROOT, cs) == ino
  {
    var cs :| Walk(dirs, ROOT, cs) == ino; cs
  }

  lemma {:induction false} WalkSnoc(dirs: map<nat, Names>, ino: nat, cs: seq<string>, c: string)
    requires forall n :: !Entry(dirs, 0, n)
    ensures Walk(dirs, ino, cs + [c]) == Lookup(dirs, Walk(dirs, ino, cs), c)
    decreases |cs|
  {
    if cs == [] {
      assert cs + [c] == [c] && [c][1..] == [];
      assert ino != 0 || !Entry(dirs, ino, c);
    } else {
      assert (cs + [c])[1..] == cs[1..] + [c];
      if cs[0] in Entries(dirs, ino) {
        WalkSnoc(dirs, Entries(dirs, ino)[cs[0]], cs[1..], c);
      } else {
        assert !Entry(dirs, 0, c);
      }
    }
  }

  /** In a tree, an inode is reached by one list of names only. */
  lemma {:induction false} OnePath(dirs: map<nat, Names>, xs: seq<string>, ys: seq<string>)
    requires Tree(dirs) && Walk(dirs, ROOT, xs) == Walk(dirs, ROOT, ys) != 0
    ensures xs == ys
    decreases |xs|
  {
    if xs != [] {
      var xb, x := xs[..|xs| - 1], xs[|xs| - 1];
      assert xs == xb + [x];
      WalkSnoc(dirs, ROOT, xb, x);
      assert Entry(dirs, Walk(dirs, ROOT, xb), x);
    }
    if ys != [] {
      var yb, y := ys[..|ys| - 1], ys[|ys| - 1];
      assert ys == yb + [y];
      WalkSnoc(dirs, ROOT, yb, y);
      assert Entry(dirs, Walk(dirs, ROOT, yb), y);
      if xs != [] {
        assert Walk(dirs, ROOT, yb) != 0;
        OnePath(dirs, xs[..|xs| - 1], yb);
      }
    }
  }

  lemma {:induction false} WalkDead(dirs: map<nat, Names>, ino: nat, xs: seq<string>, ys: seq<string>)
    requires Tree(dirs) && ino != 0 && Walk(dirs, ino, xs) == 0
    ensures Walk(dirs, ino, xs + ys) == 0
    decreases |xs|
  {
    assert (xs + ys)[1..] == xs[1..] + ys;
    if xs[0] in Entries(dirs, ino) {
      assert Entry(dirs, ino, xs[0]);
      WalkDead(dirs, Entries(dirs, ino)[xs[0]], xs[1..], ys);
    }
  }

  lemma FirstEntry(dirs: map<nat, Names>, ino: nat, r: seq<string>, n: string)
    requires Walk(dirs, ino, r) != 0 && Entry(dirs, Walk(dirs, ino, r), n)
    ensures Entry(dirs, ino, if r == [] then n else r[0])
  {}
}
