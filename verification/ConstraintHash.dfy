/** Hashing of constraint expressions (constraint_hasher/parser.py, Constraints.g4).

    Digests are numbers: hexadecimal SHA-256 digests all have the same length, so they sort as
    numbers do. The digest of a text and the digest of a tuple of digests are taken from two
    functions; where a result needs that no two values collide, it says so.
 */
module ConstraintHash {
  import opened IntrusiveLists

  datatype Hash = Hash(text: string -> nat, tuple: seq<nat> -> nat)

  /** No collisions. */
  ghost predicate Injective(h: Hash) {
    && (forall s, t | h.text(s) == h.text(t) :: s == t)
    && (forall s, t | h.tuple(s) == h.tuple(t) :: s == t)
    && (forall s, t :: h.text(s) != h.tuple(t))
  }

  /** An expression of the grammar. `ty` is empty if there is no data type. */
  datatype Expr = Apply(op: string, ty: string, args: seq<Expr>) | Paren(e: Expr) | Alias(name: string, e: Expr) | Element(text: string)

  const OPERATORS: set<string> := {"ReadLSB", "Read", "Eq", "Sle", "And", "Or", "LShr", "ZExt", "Select"}
  const TYPES: set<string> := {"", "w32", "w8"}

  /** The lexer tells operators, types and elements apart. */
  ghost predicate Parsed(e: Expr) {
    match e
    case Apply(op, ty, args) => op in OPERATORS && ty in TYPES && forall i | 0 <= i < |args| :: Parsed(args[i])
    case Paren(e) => Parsed(e)
    case Alias(_, e) => Parsed(e)
    case Element(text) => text !in OPERATORS && text !in TYPES
  }

  // ---- Hashing ----

  function Insert(x: nat, s: seq<nat>): seq<nat> {
    if s == [] || x <= s[0] then [x] + s else [s[0]] + Insert(x, s[1..])
  }

  function Sorted(s: seq<nat>): seq<nat> {
    if s == [] then [] else Insert(s[0], Sorted(s[1..]))
  }

  /** hash_expr and hash_element */
  function HashExpr(e: Expr, h: Hash): nat {
    match e
    case Apply(op, ty, args) => h.tuple(Sorted([h.text(op), h.text(ty)] + HashAll(args, h)))
    case Paren(e) => HashExpr(e, h)
    case Alias(_, e) => HashExpr(e, h)
    case Element(text) => h.text(text)
  }

  function HashAll(s: seq<Expr>, h: Hash): (r: seq<nat>)
    ensures |r| == |s| && forall i | 0 <= i < |s| :: r[i] == HashExpr(s[i], h)
  {
    if s == [] then [] else [HashExpr(s[0], h)] + HashAll(s[1..], h)
  }

  // ---- What the hash should not see ----

  /** The expression without parentheses and alias definitions around it. */
  function Core(e: Expr): Expr {
    match e
    case Paren(e) => Core(e)
    case Alias(_, e) => Core(e)
    case _ => e
  }

  ghost predicate IsPermutation(f: seq<nat>, n: nat) {
    |f| == n && (forall i | 0 <= i < n :: f[i] < n) && forall i, j | 0 <= i < j < n :: f[i] != f[j]
  }

  /** Equal up to the order of operands, parentheses and alias labels, at all depths. */
  ghost predicate Equivalent(a: Expr, b: Expr) {
    match a
    case Paren(e) => Equivalent(e, b)
    case Alias(_, e) => Equivalent(e, b)
    case Element(_) => Core(b) == a
    case Apply(op, ty, args) =>
      var c := Core(b);
      && c.Apply? && c.op == op && c.ty == ty && |c.args| == |args|
      && exists f | IsPermutation(f, |args|) :: forall i | 0 <= i < |args| :: Equivalent(args[i], c.args[f[i]])
  }

  // ---- Sorting ----

  lemma {:induction false} InsertBag(x: nat, s: seq<nat>)
    ensures multiset(Insert(x, s)) == multiset(s) + multiset{x}
  {
    if s == [] || x <= s[0] {
    } else {
      InsertBag(x, s[1..]);
      assert s == [s[0]] + s[1..];
    }
  }

  lemma {:induction false} SortedBag(s: seq<nat>)
    ensures multiset(Sorted(s)) == multiset(s)
  {
    if s == [] {
    } else {
      SortedBag(s[1..]);
      InsertBag(s[0], Sorted(s[1..]));
      assert s == [s[0]] + s[1..];
    }
  }

  lemma {:induction false} InsertSwap(x: nat, y: nat, s: seq<nat>)
    ensures Insert(x, Insert(y, s)) == Insert(y, Insert(x, s))
  {
    if s == [] || x <= s[0] || y <= s[0] {
    } else {
      InsertSwap(x, y, s[1..]);
    }
  }

  /** Sorting may take any element out first. */
  lemma {:induction false} SortedWithout(s: seq<nat>, i: nat)
    requires i < |s|
    ensures Sorted(s) == Insert(s[i], Sorted(Without(s, i)))
  {
    var r := Without(s, i);
    if i == 0 {
      assert r == s[1..];
    } else {
      SortedWithout(s[1..], i - 1);
      assert Without(s[1..], i - 1) == r[1..] && r[0] == s[0];
      InsertSwap(s[0], s[i], Sorted(r[1..]));
    }
  }

  lemma BagWithout(s: seq<nat>, i: nat)
    requires i < |s|
    ensures multiset(s) == multiset(Without(s, i)) + multiset{s[i]}
    ensures multiset(Without(s, i)) == multiset(s) - multiset{s[i]}
  {
    assert s == s[..i] + [s[i]] + s[i + 1..];
  }

  /** Two lists sort to the same if and only if they hold the same elements, equally often. */
  lemma {:induction false} SortedEqual(s: seq<nat>, t: seq<nat>)
    ensures Sorted(s) == Sorted(t) <==> multiset(s) == multiset(t)
    decreases |s|
  {
    SortedBag(s);
    SortedBag(t);
    if multiset(s) == multiset(t) {
      SameSort(s, t);
    }
  }

  lemma {:induction false} SameSort(s: seq<nat>, t: seq<nat>)
    requires multiset(s) == multiset(t)
    ensures Sorted(s) == Sorted(t)
    decreases |s|
  {
    SameSize(s, t);
    if s == [] {
    } else {
      var k := TakeOut(s, t, 0);
      assert Without(s, 0) == s[1..];
      SameSort(s[1..], Without(t, k));
      SortedWithout(t, k);
    }
  }

  // ---- Permutations ----

  /** A permutation without its last element, renumbered. */
  ghost function Shortened(f: seq<nat>, n: nat): (g: seq<nat>)
    requires IsPermutation(f, n + 1)
    ensures IsPermutation(g, n) && forall i | 0 <= i < n :: g[i] == if f[i] < f[n] then f[i] else f[i] - 1
  {
    seq(n, i requires 0 <= i < n => if f[i] <= f[n] then f[i] else f[i] - 1)
  }

  lemma {:induction false} PermutedBag(x: seq<nat>, y: seq<nat>, f: seq<nat>)
    requires |x| == |y| && IsPermutation(f, |x|) && forall i | 0 <= i < |x| :: x[i] == y[f[i]]
    ensures multiset(x) == multiset(y)
    decreases |x|
  {
    hide IsPermutation;
    if |x| > 0 {
      var n := |x| - 1;
      InRange(f, |x|);
      var g := Shortened(f, n);
      InRange(g, n);
      forall i | 0 <= i < n ensures Without(x, n)[i] == Without(y, f[n])[g[i]] {
        Differ(f, |x|, i);
      }
      PermutedBag(Without(x, n), Without(y, f[n]), g);
      BagWithout(x, n);
      BagWithout(y, f[n]);
    } else {
      assert x == y;
    }
  }

  lemma InRange(f: seq<nat>, n: nat)
    requires IsPermutation(f, n)
    ensures |f| == n && forall i | 0 <= i < n :: f[i] < n
  {
  }

  lemma Differ(f: seq<nat>, n: nat, i: nat)
    requires IsPermutation(f, n) && i < n - 1
    ensures f[i] != f[n - 1]
  {
  }

  /** A permutation of what is left after element k was taken out, with k put last. */
  ghost function Extended(g: seq<nat>, n: nat, k: nat): (f: seq<nat>)
    requires IsPermutation(g, n) && k <= n
    ensures IsPermutation(f, n + 1) && f[n] == k && forall i | 0 <= i < n :: f[i] == if g[i] < k then g[i] else g[i] + 1
  {
    seq(n, i requires 0 <= i < n => if g[i] < k then g[i] else g[i] + 1) + [k]
  }

  lemma SameSize(x: seq<nat>, y: seq<nat>)
    requires multiset(x) == multiset(y)
    ensures |x| == |y|
  {
    assert |x| == |multiset(x)| == |multiset(y)| == |y|;
  }

  lemma TakeOut(x: seq<nat>, y: seq<nat>, n: nat) returns (k: nat)
    requires multiset(x) == multiset(y) && n < |x|
    ensures k < |y| && y[k] == x[n] && multiset(Without(x, n)) == multiset(Without(y, k))
  {
    assert x[n] in multiset(y);
    k :| 0 <= k < |y| && y[k] == x[n];
    BagWithout(y, k);
    BagWithout(x, n);
  }

  lemma {:induction false} BagPermuted(x: seq<nat>, y: seq<nat>) returns (f: seq<nat>)
    requires multiset(x) == multiset(y)
    ensures |x| == |y| && IsPermutation(f, |x|) && forall i | 0 <= i < |x| :: x[i] == y[f[i]]
    decreases |x|
  {
    SameSize(x, y);
    if |x| == 0 {
      f := [];
    } else {
      var n := |x| - 1;
      var k := TakeOut(x, y, n);
      var g := BagPermuted(Without(x, n), Without(y, k));
      f := Extended(g, n, k);
      InRange(g, n);
      forall i | 0 <= i < n ensures x[i] == y[f[i]] {
        assert x[i] == Without(x, n)[i] == Without(y, k)[g[i]];
      }
    }
  }

  // ---- Canonical ----

  lemma {:induction false} HashCore(e: Expr, h: Hash)
    ensures HashExpr(Core(e), h) == HashExpr(e, h) && (Core(e).Apply? || Core(e).Element?)
    ensures Parsed(e) ==> Parsed(Core(e))
  {
    match e
    case Paren(e) => HashCore(e, h);
    case Alias(_, e) => HashCore(e, h);
    case _ =>
  }

  /** Equivalent expressions hash alike, whatever the hash. */
  lemma {:induction false} EquivalentHash(a: Expr, b: Expr, h: Hash)
    requires Equivalent(a, b)
    ensures HashExpr(a, h) == HashExpr(b, h)
  {
    HashCore(b, h);
    match a
    case Paren(e) => EquivalentHash(e, b, h);
    case Alias(_, e) => EquivalentHash(e, b, h);
    case Element(_) =>
    case Apply(op, ty, args) =>
      var c := Core(b);
      var f :| IsPermutation(f, |args|) && forall i | 0 <= i < |args| :: Equivalent(args[i], c.args[f[i]]);
      forall i | 0 <= i < |args| ensures HashAll(args, h)[i] == HashAll(c.args, h)[f[i]] {
        EquivalentHash(args[i], c.args[f[i]], h);
      }
      PermutedBag(HashAll(args, h), HashAll(c.args, h), f);
      SortedEqual([h.text(op), h.text(ty)] + HashAll(args, h), [h.text(op), h.text(ty)] + HashAll(c.args, h));
  }

  /** No operand hashes like an operator or a type. */
  lemma OperandsApart(e: Expr, s: string, h: Hash)
    requires Injective(h) && Parsed(e) && (s in OPERATORS || s in TYPES)
    ensures HashExpr(e, h) != h.text(s)
  {
    HashCore(e, h);
  }

  lemma NamesApart(op: string, ty: string)
    requires op in OPERATORS && ty in TYPES
    ensures op != ty
  {
    assert |op| >= 2 && op[0] in {'R', 'E', 'S', 'A', 'O', 'L', 'Z'};
  }

  /** Although operator and type are sorted in with the operands, they can be told from the operands. */
  lemma SameParts(a: Expr, b: Expr, h: Hash)
    requires Injective(h) && Parsed(a) && Parsed(b) && a.Apply? && b.Apply? && HashExpr(a, h) == HashExpr(b, h)
    ensures a.op == b.op && a.ty == b.ty && multiset(HashAll(a.args, h)) == multiset(HashAll(b.args, h))
  {
    hide HashExpr, Sorted, Parsed;
    HashApply(a, h);
    HashApply(b, h);
    var x, y := HashAll(a.args, h), HashAll(b.args, h);
    SortedEqual([h.text(a.op), h.text(a.ty)] + x, [h.text(b.op), h.text(b.ty)] + y);
    NotAmong(a.op, b.args, h);
    NotAmong(a.ty, b.args, h);
    NamesApart(a.op, b.ty);
    NamesApart(b.op, a.ty);
    FirstTwo(h.text(a.op), h.text(a.ty), x, h.text(b.op), h.text(b.ty), y);
  }

  lemma HashApply(e: Expr, h: Hash)
    requires e.Apply? && Parsed(e)
    ensures HashExpr(e, h) == h.tuple(Sorted([h.text(e.op), h.text(e.ty)] + HashAll(e.args, h)))
    ensures e.op in OPERATORS && e.ty in TYPES && forall i | 0 <= i < |e.args| :: Parsed(e.args[i])
  {
  }

  lemma FirstTwo(p: nat, q: nat, x: seq<nat>, r: nat, s: nat, y: seq<nat>)
    requires multiset([p, q] + x) == multiset([r, s] + y) && p !in y && q !in y
    ensures (p == r || p == s) && (q == r || q == s)
    ensures p == r && q == s ==> multiset(x) == multiset(y)
  {
    assert multiset([p, q] + x) == multiset{p, q} + multiset(x) && multiset([r, s] + y) == multiset{r, s} + multiset(y);
    assert p in multiset{r, s} + multiset(y) && q in multiset{r, s} + multiset(y);
    if p == r && q == s {
      assert multiset(x) == (multiset{p, q} + multiset(x)) - multiset{p, q};
      assert multiset(y) == (multiset{p, q} + multiset(y)) - multiset{p, q};
    }
  }

  lemma NotAmong(s: string, args: seq<Expr>, h: Hash)
    requires Injective(h) && (s in OPERATORS || s in TYPES) && forall i | 0 <= i < |args| :: Parsed(args[i])
    ensures h.text(s) !in HashAll(args, h)
  {
    forall i | 0 <= i < |args| ensures HashAll(args, h)[i] != h.text(s) {
      OperandsApart(args[i], s, h);
    }
  }

  /** Without collisions, expressions that hash alike are equivalent: hash_expr is a canonical form. */
  lemma {:induction false} HashEquivalent(a: Expr, b: Expr, h: Hash)
    requires Injective(h) && Parsed(a) && Parsed(b) && HashExpr(a, h) == HashExpr(b, h)
    ensures Equivalent(a, b)
  {
    HashCore(b, h);
    var c := Core(b);
    match a
    case Paren(e) => HashEquivalent(e, b, h);
    case Alias(_, e) => HashEquivalent(e, b, h);
    case Element(_) =>
    case Apply(op, ty, args) =>
      SameParts(a, c, h);
      var f := BagPermuted(HashAll(args, h), HashAll(c.args, h));
      forall i | 0 <= i < |args| ensures Equivalent(args[i], c.args[f[i]]) {
        HashEquivalent(args[i], c.args[f[i]], h);
      }
  }
}
