/**
 The search tree of atom names (dix/atom.c): names are ordered by fingerprint, then as C strings.
 */
module AtomTree {
  import opened Options

  type Byte = b: int | 0 <= b < 256

  type Name = seq<Byte>

  /** What a C string keeps of a counted one: everything before the first NUL. */
  function Stored(s: Name): (r: Name)
    ensures 0 !in r && |r| <= |s|
    ensures r == s <==> 0 !in s
  {
    if |s| == 0 || s[0] == 0 then []
    else
      var rest := Stored(s[1..]);
      assert s == [s[0]] + s[1..];
      [s[0]] + rest
  }

  // ---- Comparing names

  datatype Order = Less | Equal | Greater

  function CharAt(s: Name): Byte {
    if |s| == 0 then 0 else s[0]
  }

  function Tail(s: Name): Name {
    if |s| == 0 then [] else s[1..]
  }

  /** strncmp on the first `n` bytes; strings end with a NUL. */
  function Strncmp(a: Name, b: Name, n: nat): Order
    decreases n
  {
    if n == 0 then Equal
    else if CharAt(a) < CharAt(b) then Less
    else if CharAt(a) > CharAt(b) then Greater
    else if CharAt(a) == 0 then Equal
    else Strncmp(Tail(a), Tail(b), n - 1)
  }

  /** The order of NUL-free strings. */
  function Lex(a: Name, b: Name): Order {
    if |a| == 0 then (if |b| == 0 then Equal else Less)
    else if |b| == 0 then Greater
    else if a[0] < b[0] then Less
    else if a[0] > b[0] then Greater
    else Lex(a[1..], b[1..])
  }

  /** `a` comes first: it ends where `b` goes on, or has the smaller byte where they part. */
  predicate PartsAt(a: Name, b: Name, n: nat) {
    && n <= |a| && n < |b| && a[..n] == b[..n] && (n == |a| || a[n] < b[n])
  }

  lemma {:induction false} LexMeans(a: Name, b: Name)
    ensures Lex(a, b) == Less <==> exists n: nat :: PartsAt(a, b, n)
    ensures Lex(a, b) == Greater <==> exists n: nat :: PartsAt(b, a, n)
    ensures Lex(a, b) == Equal <==> a == b
  {
    LexEqual(a, b);
    if |a| == 0 || |b| == 0 {
      assert |b| > 0 ==> PartsAt(a, b, 0);
      assert |a| > 0 ==> PartsAt(b, a, 0);
    } else if a[0] != b[0] {
      assert a[0] < b[0] ==> PartsAt(a, b, 0);
      assert b[0] < a[0] ==> PartsAt(b, a, 0);
    } else {
      LexMeans(a[1..], b[1..]);
      PartsLater(a, b);
      PartsLater(b, a);
    }
  }

  lemma {:induction false} PartsLater(a: Name, b: Name)
    requires |a| > 0 && |b| > 0 && a[0] == b[0]
    ensures (exists n: nat :: PartsAt(a, b, n)) <==> exists n: nat :: PartsAt(a[1..], b[1..], n)
  {
    if n: nat :| PartsAt(a, b, n) {
      assert a[1..][..n - 1] == a[..n][1..] && b[1..][..n - 1] == b[..n][1..];
      assert PartsAt(a[1..], b[1..], n - 1);
    }
    if n: nat :| PartsAt(a[1..], b[1..], n) {
      assert a[..n + 1] == [a[0]] + a[1..][..n] && b[..n + 1] == [b[0]] + b[1..][..n];
      assert PartsAt(a, b, n + 1);
    }
  }

  /** The decision MakeAtom takes at a node with an equal fingerprint. */
  function Decide(s: Name, node: Name): Order {
    var comp := Strncmp(s, node, |s|);
    if comp == Less || (comp == Equal && |s| < |node|) then Less
    else if comp == Greater then Greater
    else Equal
  }

  /** It is the order of what the two C strings hold. */
  lemma {:induction false} DecideIsLex(s: Name, node: Name)
    requires 0 !in node
    ensures Decide(s, node) == Lex(Stored(s), node)
  {
    if |s| == 0 || s[0] == 0 || |node| == 0 {
      if |s| > 0 && s[0] == 0 && |node| > 0 {
        assert node[0] in node;
      }
    } else {
      assert node[0] in node;
      DecideIsLex(s[1..], node[1..]);
    }
  }

  lemma {:induction false} LexEqual(a: Name, b: Name)
    ensures Lex(a, b) == Equal <==> a == b
    ensures Lex(a, b) == Less <==> Lex(b, a) == Greater
  {
    if |a| > 0 && |b| > 0 {
      LexEqual(a[1..], b[1..]);
      assert a == [a[0]] + a[1..] && b == [b[0]] + b[1..];
    }
  }

  lemma {:induction false} LexTransitive(a: Name, b: Name, c: Name)
    requires Lex(a, b) == Less && Lex(b, c) == Less
    ensures Lex(a, c) == Less
  {
    if |a| > 0 && |b| > 0 && |c| > 0 && a[0] == b[0] == c[0] {
      LexTransitive(a[1..], b[1..], c[1..]);
    }
  }

  // ---- Keys

  datatype Key = Key(fp: nat, name: Name)

  function KeyOrder(a: Key, b: Key): Order {
    if a.fp < b.fp then Less else if a.fp > b.fp then Greater else Lex(a.name, b.name)
  }

  lemma {:induction false} KeyEqual(a: Key, b: Key)
    ensures KeyOrder(a, b) == Equal <==> a == b
    ensures KeyOrder(a, b) == Less <==> KeyOrder(b, a) == Greater
  {
    LexEqual(a.name, b.name);
  }

  lemma {:induction false} KeyTransitive(a: Key, b: Key, c: Key)
    requires KeyOrder(a, b) == Less && KeyOrder(b, c) == Less
    ensures KeyOrder(a, c) == Less
  {
    if a.fp == b.fp == c.fp {
      LexTransitive(a.name, b.name, c.name);
    }
  }

  // ---- The tree

  datatype Tree = Leaf | Node(left: Tree, right: Tree, atom: nat, key: Key)

  /** The keys with their atoms. */
  function Elements(t: Tree): set<(Key, nat)> {
    match t
    case Leaf => {}
    case Node(l, r, a, k) => Elements(l) + Elements(r) + {(k, a)}
  }

  /** All keys of the tree stand in the given order to `k`. */
  ghost predicate AllKeys(t: Tree, o: Order, k: Key) {
    forall e :: e in Elements(t) ==> KeyOrder(e.0, k) == o
  }

  ghost predicate Ordered(t: Tree) {
    match t
    case Leaf => true
    case Node(l, r, a, k) => Ordered(l) && Ordered(r) && AllKeys(l, Less, k) && AllKeys(r, Greater, k)
  }

  /** The order of the tree on the fields: fingerprints first, and names among equal fingerprints. */
  lemma {:induction false} OrderedMeans(t: Tree, k: Key, a: nat)
    requires t.Node? && Ordered(t)
    ensures (k, a) in Elements(t.left) ==>
              k.fp < t.key.fp || (k.fp == t.key.fp && exists n: nat :: PartsAt(k.name, t.key.name, n))
    ensures (k, a) in Elements(t.right) ==>
              k.fp > t.key.fp || (k.fp == t.key.fp && exists n: nat :: PartsAt(t.key.name, k.name, n))
  {
    LexMeans(k.name, t.key.name);
    assert (k, a) in Elements(t.left) ==> KeyOrder((k, a).0, t.key) == Less;
    assert (k, a) in Elements(t.right) ==> KeyOrder((k, a).0, t.key) == Greater;
  }

  function Lookup(t: Tree, k: Key): Option<nat> {
    match t
    case Leaf => None
    case Node(l, r, a, k') =>
      match KeyOrder(k, k')
      case Less => Lookup(l, k)
      case Greater => Lookup(r, k)
      case Equal => Some(a)
  }

  function Insert(t: Tree, k: Key, a: nat): Tree {
    match t
    case Leaf => Node(Leaf, Leaf, a, k)
    case Node(l, r, a', k') =>
      match KeyOrder(k, k')
      case Less => Node(Insert(l, k, a), r, a', k')
      case Greater => Node(l, Insert(r, k, a), a', k')
      case Equal => t
  }

  /** Walking down finds a key exactly if it is somewhere in the tree. */
  lemma {:induction false} LookupExact(t: Tree, k: Key, a: nat)
    requires Ordered(t)
    ensures Lookup(t, k) == Some(a) ==> (k, a) in Elements(t)
    ensures (k, a) in Elements(t) ==> Lookup(t, k).Some?
  {
    if t.Node? {
      KeyEqual(k, t.key);
      LookupExact(t.left, k, a);
      LookupExact(t.right, k, a);
    }
  }

  lemma {:induction false} InsertElements(t: Tree, k: Key, a: nat)
    requires Lookup(t, k) == None
    ensures Elements(Insert(t, k, a)) == Elements(t) + {(k, a)}
  {
    if t.Node? {
      match KeyOrder(k, t.key)
      case Less => InsertElements(t.left, k, a);
      case Greater => InsertElements(t.right, k, a);
      case Equal =>
    }
  }

  lemma {:induction false} InsertOrdered(t: Tree, k: Key, a: nat)
    requires Ordered(t) && Lookup(t, k) == None
    ensures Ordered(Insert(t, k, a))
  {
    if t.Node? {
      KeyEqual(k, t.key);
      match KeyOrder(k, t.key)
      case Less =>
        InsertOrdered(t.left, k, a);
        InsertElements(t.left, k, a);
      case Greater =>
        InsertOrdered(t.right, k, a);
        InsertElements(t.right, k, a);
      case Equal =>
    }
  }

  // ---- The pointer `np`, as the way down to it

  /** The subtree at the end of a way down; `true` is left. */
  function At(t: Tree, way: seq<bool>): Tree {
    if |way| == 0 || t.Leaf? then t
    else At(if way[0] then t.left else t.right, way[1..])
  }

  /** `*np = sub` */
  function Graft(t: Tree, way: seq<bool>, sub: Tree): Tree {
    if |way| == 0 || t.Leaf? then sub
    else if way[0] then t.(left := Graft(t.left, way[1..], sub))
    else t.(right := Graft(t.right, way[1..], sub))
  }

  lemma {:induction false} GraftDeeper(t: Tree, way: seq<bool>, left: bool, sub: Tree)
    requires At(t, way).Node?
    ensures At(t, way + [left]) == if left then At(t, way).left else At(t, way).right
    ensures Graft(t, way + [left], sub)
         == Graft(t, way, if left then At(t, way).(left := sub) else At(t, way).(right := sub))
  {
    if |way| > 0 && t.Node? {
      var next := if way[0] then t.left else t.right;
      assert (way + [left])[1..] == way[1..] + [left];
      GraftDeeper(next, way[1..], left, sub);
    } else {
      assert (way + [left])[1..] == [];
    }
  }
}

