/**
 The atom table (dix/atom.c): a search tree and a growable array that index the same names.
 */
module Atoms {
  import opened Options
  import opened AtomTree

  const XA_LAST_PREDEFINED: nat := 68
  const INITIAL_TABLE_SIZE: nat := 256
  const BAD_RESOURCE: nat := 0xE000_0000
  const WORD: nat := 0x1_0000_0000

  /** `(unsigned int) c` for a signed char. */
  function SignExtend(b: Byte): nat {
    if b < 128 then b else b + WORD - 256
  }

  /** The fingerprint after `n` rounds: each takes one byte from the front and one from the back. */
  function Fingerprint(s: Name, n: nat): (fp: nat)
    requires 2 * n <= |s| + 1
    ensures fp < WORD
  {
    if n == 0 then 0
    else
      var front := (Fingerprint(s, n - 1) * 27 + SignExtend(s[n - 1])) % WORD;
      (front * 27 + SignExtend(s[|s| - n])) % WORD
  }

  function KeyOf(s: Name): Key {
    Key(Fingerprint(s, (|s| + 1) / 2), Stored(s))
  }

  class AtomTable {
    var lastAtom: nat
    var root: Tree
    var nodeTable: array<Option<Key>>
    /** The keys of atoms 1, 2, ..., lastAtom. */
    ghost var names: seq<Key>

    ghost predicate Valid()
      reads this, nodeTable
    {
      && lastAtom == |names| < nodeTable.Length
      && (forall a :: 1 <= a <= lastAtom ==> nodeTable[a] == Some(names[a - 1]))
      && (forall i, j :: 0 <= i < j < |names| ==> names[i] != names[j])
      && (forall i :: 0 <= i < |names| ==> 0 !in names[i].name)
      && nodeTable[0] == None
      && Ordered(root)
      && Elements(root) == Numbered(names)
    }

    /** InitAtoms, before the predefined names are added. */
    constructor ()
      ensures Valid() && names == [] && fresh(nodeTable)
    {
      lastAtom, root, names := 0, Leaf, [];
      nodeTable := new Option<Key>[INITIAL_TABLE_SIZE](_ => None);
    }

    /** The loop that computes the fingerprint. */
    method ComputeFingerprint(s: Name) returns (fp: nat)
      ensures fp == Fingerprint(s, (|s| + 1) / 2)
    {
      fp := 0;
      for i := 0 to (|s| + 1) / 2
        invariant fp == Fingerprint(s, i)
      {
        fp := (fp * 27 + SignExtend(s[i])) % WORD;
        fp := (fp * 27 + SignExtend(s[|s| - 1 - i])) % WORD;
      }
    }

    /** The walk down the tree: the atom if the name is there, else where it belongs. */
    method Walk(s: Name, fp: nat) returns (found: Option<nat>, way: seq<bool>)
      requires Valid() && fp == KeyOf(s).fp
      ensures found == Lookup(root, KeyOf(s))
      ensures found == None ==> forall a: nat :: Graft(root, way, Node(Leaf, Leaf, a, KeyOf(s))) == Insert(root, KeyOf(s), a)
    {
      var np := root;
      way := [];
      ghost var key := KeyOf(s);
      while np != Leaf
        invariant np == At(root, way) && Ordered(np) && Elements(np) <= Elements(root)
        invariant Lookup(root, key) == Lookup(np, key)
        invariant forall a: nat :: Insert(root, key, a) == Graft(root, way, Insert(np, key, a))
        decreases np
      {
        NodeName(names, np, Elements(root));
        DecideIsLex(s, np.key.name);
        var o := if fp < np.key.fp then Less else if fp > np.key.fp then Greater else Decide(s, np.key.name);
        if o == Equal {
          return Some(np.atom), way;
        }
        forall a: nat
          ensures Graft(root, way + [o == Less], Insert(if o == Less then np.left else np.right, key, a))
               == Graft(root, way, Insert(np, key, a))
        {
          GraftDeeper(root, way, o == Less, Insert(if o == Less then np.left else np.right, key, a));
        }
        GraftDeeper(root, way, o == Less, Leaf);
        way := way + [o == Less];
        np := if o == Less then np.left else np.right;
      }
      return None, way;
    }

    /**
     Find a name, or with `makeit` give it the next atom. The three flags say whether the allocations of the node, of
     the copied name and of the larger table succeed.
     */
    method MakeAtom(s: Name, makeit: bool, gotNode: bool, gotName: bool, gotTable: bool) returns (atom: nat)
      requires Valid()
      modifies this, nodeTable
      ensures Valid() && fresh({nodeTable} - {old(nodeTable)})
      ensures var key := KeyOf(s);
              var enough := gotNode && (gotName || old(lastAtom) < XA_LAST_PREDEFINED)
                            && (gotTable || old(lastAtom) + 1 < old(nodeTable.Length));
              if key in old(names) then
                names == old(names) && 1 <= atom <= |names| && names[atom - 1] == key
              else if makeit && enough then
                names == old(names) + [key] && atom == |names|
              else
                names == old(names) && atom == if makeit then BAD_RESOURCE else 0
      ensures nodeTable.Length == old(nodeTable.Length) || nodeTable.Length == 2 * old(nodeTable.Length)
    {
      hide Ordered, Elements, Lookup, Insert, Graft, Numbered, Fingerprint, Stored;
      var fp := ComputeFingerprint(s);
      ghost var key := KeyOf(s);
      var found, way := Walk(s, fp);
      LookupNumbered(root, names, key);
      if found.Some? {
        return found.value;
      }
      if !makeit {
        return 0;
      }
      if !gotNode {
        return BAD_RESOURCE;
      }
      if lastAtom >= XA_LAST_PREDEFINED && !gotName {
        return BAD_RESOURCE;
      }
      if lastAtom + 1 >= nodeTable.Length {
        if !gotTable {
          return BAD_RESOURCE;
        }
        DoubleTable();
      }
      Append(way, fp, Stored(s));
      return lastAtom;
    }

    /** reallocarray to twice the length. */
    method DoubleTable()
      requires Valid()
      modifies this`nodeTable
      ensures Valid() && fresh(nodeTable) && nodeTable.Length == 2 * old(nodeTable.Length)
    {
      var length, olds := nodeTable.Length, nodeTable[..];
      nodeTable := new Option<Key>[2 * length](i => if 0 <= i < |olds| then olds[i] else None);
    }

    /** Hang the new node into the tree and enter it in the table. */
    method Append(way: seq<bool>, fp: nat, name: Name)
      requires Valid() && lastAtom + 1 < nodeTable.Length && 0 !in name
      requires Lookup(root, Key(fp, name)) == None && Key(fp, name) !in names
      requires Graft(root, way, Node(Leaf, Leaf, lastAtom + 1, Key(fp, name))) == Insert(root, Key(fp, name), lastAtom + 1)
      modifies this`root, this`lastAtom, this`names, nodeTable
      ensures Valid() && names == old(names) + [Key(fp, name)]
    {
      hide Ordered, Elements, Lookup, Insert, Graft, Numbered;
      ghost var key := Key(fp, name);
      InsertOrdered(root, key, lastAtom + 1);
      InsertElements(root, key, lastAtom + 1);
      NumberedLonger(names, key);
      root := Graft(root, way, Node(Leaf, Leaf, lastAtom + 1, Key(fp, name)));
      lastAtom := lastAtom + 1;
      nodeTable[lastAtom] := Some(Key(fp, name));
      names := names + [key];
    }

    predicate ValidAtom(atom: nat)
      reads this
    {
      atom != 0 && atom <= lastAtom
    }

    /** The name of an atom, or nothing if there is no such atom. */
    method NameForAtom(atom: nat) returns (name: Option<Name>)
      requires Valid()
      ensures name == if ValidAtom(atom) then Some(names[atom - 1].name) else None
    {
      if atom > lastAtom {
        return None;
      }
      match nodeTable[atom]
      case None => return None;
      case Some(node) => return Some(node.name);
    }
  }

  /** Names with their atoms: positions counted from 1. */
  function Numbered(names: seq<Key>): set<(Key, nat)> {
    set i: nat | i < |names| :: (names[i], i + 1)
  }

  lemma {:induction false} NumberedLonger(names: seq<Key>, key: Key)
    ensures Numbered(names + [key]) == Numbered(names) + {(key, |names| + 1)}
  {
    var longer := names + [key];
    forall e
      ensures e in Numbered(longer) <==> e in Numbered(names) + {(key, |names| + 1)}
    {
      if e in Numbered(longer) {
        var i: nat :| i < |longer| && e == (longer[i], i + 1);
        if i < |names| {
          assert e == (names[i], i + 1);
        }
      }
      if e in Numbered(names) {
        var i: nat :| i < |names| && e == (names[i], i + 1);
        assert e == (longer[i], i + 1);
      }
      if e == (key, |names| + 1) {
        assert e == (longer[|names|], |names| + 1);
      }
    }
  }

  /** Looking a key up in the tree is looking it up in the list of names. */
  lemma {:induction false} LookupNumbered(root: Tree, names: seq<Key>, key: Key)
    requires Ordered(root) && Elements(root) == Numbered(names)
    ensures Lookup(root, key).Some? <==> key in names
    ensures Lookup(root, key).Some? ==>
              var a := Lookup(root, key).value; 1 <= a <= |names| && names[a - 1] == key
  {
    if Lookup(root, key).Some? {
      var a := Lookup(root, key).value;
      LookupExact(root, key, a);
      var i: nat :| i < |names| && (key, a) == (names[i], i + 1);
    }
    if key in names {
      var i: nat :| i < |names| && names[i] == key;
      assert (names[i], i + 1) in Numbered(names);
      LookupExact(root, key, i + 1);
    }
  }

  /** Names in the tree are C strings. */
  lemma {:induction false} NodeName(names: seq<Key>, np: Tree, all: set<(Key, nat)>)
    requires np.Node? && Elements(np) <= all && all == Numbered(names)
    requires forall i :: 0 <= i < |names| ==> 0 !in names[i].name
    ensures 0 !in np.key.name
    ensures Elements(np.left) <= all && Elements(np.right) <= all
  {
    assert (np.key, np.atom) in Elements(np);
    var i: nat :| i < |names| && (np.key, np.atom) == (names[i], i + 1);
  }

  // ---- What MakeAtom and NameForAtom do together

  /** The name remembered for an atom is the one it was made for if and only if that has no NUL byte. */
  method NameOfMade(t: AtomTable, s: Name) returns (atom: nat, name: Option<Name>)
    requires t.Valid()
    modifies t, t.nodeTable
    ensures t.Valid() && fresh({t.nodeTable} - {old(t.nodeTable)})
    ensures name == Some(Stored(s))
    ensures name == Some(s) <==> 0 !in s
    ensures 1 <= atom <= |t.names| && t.names[atom - 1] == KeyOf(s)
    ensures old(t.names) <= t.names
  {
    hide Fingerprint, Stored;
    atom := t.MakeAtom(s, true, true, true, true);
    name := t.NameForAtom(atom);
    StoredExactly(s);
  }

  lemma {:induction false} StoredExactly(s: Name)
    ensures Stored(s) == s <==> 0 !in s
  {
  }

  /**
   Two names get one atom exactly if they have the same key; for names without NUL bytes that is: exactly if they are
   the same name.
   */
  method AtomsOfTwo(t: AtomTable, r: Name, s: Name) returns (a: nat, b: nat)
    requires t.Valid()
    modifies t, t.nodeTable
    ensures t.Valid() && fresh({t.nodeTable} - {old(t.nodeTable)})
    ensures a == b <==> KeyOf(r) == KeyOf(s)
    ensures 0 !in r && 0 !in s ==> (a == b <==> r == s)
    ensures 1 <= a <= |t.names| && t.names[a - 1] == KeyOf(r) && 1 <= b <= |t.names| && t.names[b - 1] == KeyOf(s)
  {
    hide Fingerprint, Stored, KeyOf;
    var nameR, nameS;
    a, nameR := NameOfMade(t, r);
    b, nameS := NameOfMade(t, s);
    if 0 !in r && 0 !in s {
      KeysOfPlainNames(r, s);
    }
  }

  lemma {:induction false} KeysOfPlainNames(r: Name, s: Name)
    requires 0 !in r && 0 !in s
    ensures KeyOf(r) == KeyOf(s) <==> r == s
  {
    hide Fingerprint;
  }

  /** The names "A" and "A", NUL, "B" get two atoms that have one name. */
  method OneNameTwoAtoms() returns (t: AtomTable, a: nat, b: nat)
    ensures fresh(t) && t.Valid() && a != b && t.ValidAtom(a) && t.ValidAtom(b)
    ensures t.names[a - 1].name == t.names[b - 1].name == [65]
  {
    t := new AtomTable();
    NulKeys();
    a, b := AtomsOfTwo(t, [65], [65, 0, 66]);
  }

  lemma {:induction false} NulKeys()
    ensures KeyOf([65]).name == KeyOf([65, 0, 66]).name == [65]
    ensures KeyOf([65]) != KeyOf([65, 0, 66])
  {
    var s: Name := [65];
    var t: Name := [65, 0, 66];
    assert s[1..] == [];
    assert t[1..] == [0, 66];
    assert Fingerprint(s, 0) == 0 && Fingerprint(t, 0) == 0;
    assert Fingerprint(s, 1) == 1820;
    assert Fingerprint(t, 1) == 1821;
    assert Fingerprint(t, 2) == 1327509;
  }
}
