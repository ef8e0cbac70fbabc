// The versioned trees behind the substores, as far as the root store uses them:
// a working tree, the saved versions, export as a node sequence and import from one.
// How a tree rebalances and what its hash is are parameters (Library).

module Iavl {
  import opened Wrappers
  import opened Bytes

  type Value = seq<Byte>
  type Hash = seq<Byte>

  /** Values sit in the leaves. Version 0 marks a node not saved yet. */
  datatype Tree =
    | Empty
    | Leaf(key: Key, value: Value, version: nat)
    | Node(key: Key, height: nat, version: nat, left: Tree, right: Tree)

  function Contents(t: Tree): map<Key, Value> {
    match t
    case Empty => map[]
    case Leaf(k, v, _) => map[k := v]
    case Node(_, _, _, l, r) => Contents(l) + Contents(r)
  }

  /** Saving a version marks the new nodes with it. */
  function Stamp(t: Tree, version: nat): Tree {
    match t
    case Empty => Empty
    case Leaf(k, v, n) => Leaf(k, v, if n == 0 then version else n)
    case Node(k, h, n, l, r) => Node(k, h, if n == 0 then version else n, Stamp(l, version), Stamp(r, version))
  }

  lemma {:induction false} StampKeepsContents(t: Tree, version: nat)
    ensures Contents(Stamp(t, version)) == Contents(t)
  {
    if t.Node? {
      StampKeepsContents(t.left, version);
      StampKeepsContents(t.right, version);
    }
  }

  function Height(t: Tree): nat {
    if t.Node? then t.height else 0
  }

  /** What every saved tree satisfies: inner nodes have two nonempty children, are
      higher than both, and no node is newer than the version of the tree. */
  predicate Sound(t: Tree, version: nat) {
    match t
    case Empty => false
    case Leaf(_, _, n) => n <= version
    case Node(_, h, n, l, r) =>
      && n <= version && Height(l) < h && Height(r) < h
      && Sound(l, version) && Sound(r, version)
  }

  predicate SoundVersion(t: Tree, version: nat) {
    t == Empty || Sound(t, version)
  }

  /** The tree library: updates (with their rebalancing), the hash of a tree, and the
      Merkle root over the named hashes of the substores. */
  datatype Library = Library(
    set_: (Tree, Key, Value) -> Tree,
    remove: (Tree, Key) -> Tree,
    hash: Tree -> Hash,
    root: map<Key, Hash> -> Hash)
  {
    ghost predicate SetLaw(t: Tree, k: Key, v: Value) {
      Contents(set_(t, k, v)) == Contents(t)[k := v]
    }

    ghost predicate RemoveLaw(t: Tree, k: Key) {
      Contents(remove(t, k)) == Contents(t) - {k}
    }

    /** Trees with the same hash have the same contents. */
    ghost predicate CollisionFree() {
      forall t, u :: hash(t) == hash(u) ==> Contents(t) == Contents(u)
    }

    /** Updates do to the contents what their names say. */
    ghost predicate Lawful() {
      && (forall t, k, v :: SetLaw(t, k, v))
      && (forall t, k :: RemoveLaw(t, k))
    }

    /** Updates of a sound tree give a sound tree, their new nodes not saved yet. */
    ghost predicate KeepsSound() {
      && (forall t, k, v, n: nat :: SoundVersion(t, n) ==> SoundVersion(set_(t, k, v), n))
      && (forall t, k, n: nat :: SoundVersion(t, n) ==> SoundVersion(remove(t, k), n))
    }
  }

  // Export and import

  const MAX_HEIGHT: nat := 127

  datatype ExportNode = ExportNode(key: Key, value: Value, height: nat, version: nat)

  /** The nodes in post-order, as the exporter yields them. */
  function Export(t: Tree): seq<ExportNode> {
    match t
    case Empty => []
    case Leaf(k, v, n) => [ExportNode(k, v, 0, n)]
    case Node(k, h, n, l, r) => Export(l) + Export(r) + [ExportNode(k, [], h, n)]
  }

  lemma {:induction false} StampIsSound(t: Tree, n: nat, version: nat)
    requires Sound(t, n) && n <= version
    ensures Sound(Stamp(t, version), version) && Height(Stamp(t, version)) == Height(t)
  {
    if t.Node? {
      StampIsSound(t.left, n, version);
      StampIsSound(t.right, n, version);
    }
  }

  /** Importer.Add: an inner node takes the two topmost subtrees as its children. */
  function AddNode(stack: seq<Tree>, node: ExportNode, version: nat): Option<seq<Tree>> {
    if node.version > version then None
    else if node.height == 0 then Some(stack + [Leaf(node.key, node.value, node.version)])
    else
      var n := |stack|;
      if n >= 2 && Height(stack[n - 1]) < node.height && Height(stack[n - 2]) < node.height then
        Some(stack[..n - 2] + [Node(node.key, node.height, node.version, stack[n - 2], stack[n - 1])])
      else None
  }

  function AddNodes(stack: seq<Tree>, nodes: seq<ExportNode>, version: nat): Option<seq<Tree>> {
    if nodes == [] then Some(stack)
    else
      match AddNodes(stack, nodes[..|nodes| - 1], version)
      case None => None
      case Some(s) => AddNode(s, nodes[|nodes| - 1], version)
  }

  /** Importer.Commit: one subtree, or none for an empty tree. */
  function CommitImport(stack: seq<Tree>): Option<Tree> {
    if stack == [] then Some(Empty)
    else if |stack| == 1 then Some(stack[0])
    else None
  }

  lemma {:induction false} AddNodesAppend(stack: seq<Tree>, a: seq<ExportNode>, b: seq<ExportNode>, version: nat)
    ensures AddNodes(stack, a + b, version)
         == match AddNodes(stack, a, version) case None => None case Some(s) => AddNodes(s, b, version)
  {
    if b == [] {
      assert a + b == a;
    } else {
      var n := |b| - 1;
      assert (a + b)[..|a + b| - 1] == a + b[..n];
      AddNodesAppend(stack, a, b[..n], version);
    }
  }

  /** Importing the export of a subtree pushes exactly that subtree. */
  lemma {:induction false} ImportExported(t: Tree, stack: seq<Tree>, version: nat)
    requires Sound(t, version)
    ensures AddNodes(stack, Export(t), version) == Some(stack + [t])
  {
    match t
    case Leaf(k, v, n) =>
      var node := ExportNode(k, v, 0, n);
      assert [node][..0] == [];
      assert AddNodes(stack, [], version) == Some(stack);
    case Node(k, h, n, l, r) =>
      var node := ExportNode(k, [], h, n);
      ImportExported(l, stack, version);
      ImportExported(r, stack + [l], version);
      AddNodesAppend(stack, Export(l), Export(r), version);
      AddNodesAppend(stack, Export(l) + Export(r), [node], version);
      var s := stack + [l] + [r];
      assert AddNodes(s, [node], version) == AddNode(s, node, version) by {
        assert [node][..0] == [];
        assert AddNodes(s, [], version) == Some(s);
      }
      assert s[..|s| - 2] == stack;
  }

  /** Saving a version keeps every node and gives the version to exactly the new ones, so no
      exported node of a saved tree is without one. */
  lemma {:induction false} StampMarksNewNodes(t: Tree, version: nat)
    ensures |Export(Stamp(t, version))| == |Export(t)|
    ensures forall i :: 0 <= i < |Export(t)| ==>
              Export(Stamp(t, version))[i]
              == Export(t)[i].(version := if Export(t)[i].version == 0 then version else Export(t)[i].version)
  {
    if t.Node? {
      StampMarksNewNodes(t.left, version);
      StampMarksNewNodes(t.right, version);
    }
  }

  /** The export of a saved version determines it. */
  lemma ExportDeterminesTree(t: Tree, version: nat)
    requires SoundVersion(t, version)
    ensures AddNodes([], Export(t), version).Some?
    ensures CommitImport(AddNodes([], Export(t), version).value) == Some(t)
  {
    if t != Empty {
      ImportExported(t, [], version);
      assert [] + [t] == [t];
    }
  }

  // The laws of a library can be met

  function Appended(t: Tree, k: Key, v: Value): Tree {
    if t == Empty then Leaf(k, v, 0) else Node(k, Height(t) + 1, 0, t, Leaf(k, v, 0))
  }

  function Without(t: Tree, k: Key): Tree {
    match t
    case Empty => Empty
    case Leaf(key, _, _) => if key == k then Empty else t
    case Node(key, h, n, l, r) =>
      var left, right := Without(l, k), Without(r, k);
      if left == Empty then right else if right == Empty then left else Node(key, h, n, left, right)
  }

  lemma RemovingFromBoth(a: map<Key, Value>, b: map<Key, Value>, k: Key)
    ensures (a + b) - {k} == (a - {k}) + (b - {k})
  {
  }

  lemma {:induction false} WithoutRemoves(t: Tree, k: Key)
    ensures Contents(Without(t, k)) == Contents(t) - {k}
  {
    if t.Node? {
      WithoutRemoves(t.left, k);
      WithoutRemoves(t.right, k);
      var l, r := Contents(Without(t.left, k)), Contents(Without(t.right, k));
      assert Contents(Without(t, k)) == l + r;
      RemovingFromBoth(Contents(t.left), Contents(t.right), k);
    }
  }

  lemma {:induction false} WithoutIsSound(t: Tree, k: Key, n: nat)
    requires Sound(t, n)
    ensures SoundVersion(Without(t, k), n) && Height(Without(t, k)) <= Height(t)
  {
    if t.Node? {
      WithoutIsSound(t.left, k, n);
      WithoutIsSound(t.right, k, n);
    }
  }

  lemma AppendedSets(t: Tree, k: Key, v: Value, n: nat)
    ensures Contents(Appended(t, k, v)) == Contents(t)[k := v]
    ensures SoundVersion(t, n) ==> SoundVersion(Appended(t, k, v), n)
  {
    assert Contents(Leaf(k, v, 0)) == map[k := v];
    assert Contents(t) + map[k := v] == Contents(t)[k := v];
  }

  /** Appending leaves and cutting them off again satisfies all laws, without any balance. */
  lemma LawsCanBeMet(hash: Tree -> Hash, root: map<Key, Hash> -> Hash)
    ensures Library(Appended, Without, hash, root).Lawful()
    ensures Library(Appended, Without, hash, root).KeepsSound()
  {
    var lib := Library(Appended, Without, hash, root);
    forall t, k, v
      ensures lib.SetLaw(t, k, v)
    {
      AppendedSets(t, k, v, 0);
    }
    forall t, k, v, n: nat | SoundVersion(t, n)
      ensures SoundVersion(lib.set_(t, k, v), n)
    {
      AppendedSets(t, k, v, n);
    }
    forall t, k
      ensures lib.RemoveLaw(t, k)
    {
      WithoutRemoves(t, k);
    }
    forall t, k, n: nat | SoundVersion(t, n)
      ensures SoundVersion(lib.remove(t, k), n)
    {
      if t != Empty { WithoutIsSound(t, k, n); }
    }
  }

  // Saved versions

  type History = map<nat, Tree>

  lemma {:induction false} MaxExists(versions: set<nat>)
    requires versions != {}
    ensures exists m :: m in versions && forall v :: v in versions ==> v <= m
  {
    var x :| x in versions;
    if versions == {x} {
    } else {
      MaxExists(versions - {x});
      var m :| m in versions - {x} && forall v :: v in versions - {x} ==> v <= m;
      var top := if m < x then x else m;
      forall v | v in versions
        ensures v <= top
      {
        assert v == x || v in versions - {x};
      }
      assert top in versions;
    }
  }

  function MaxVersion(versions: set<nat>): (m: nat)
    ensures forall v :: v in versions ==> v <= m
    ensures versions != {} ==> m in versions
    ensures versions == {} ==> m == 0
  {
    if versions == {} then 0
    else
      MaxExists(versions);
      var m :| m in versions && forall v :: v in versions ==> v <= m;
      m
  }

  function Latest(h: History): nat {
    MaxVersion(h.Keys)
  }

  /** MutableTree.LoadVersion: a target that is not positive asks for the newest version. */
  function LoadTree(h: History, target: int, initialVersion: nat): Option<(nat, Tree)> {
    if exists v :: v in h && v < initialVersion then None
    else if target <= 0 then
      if h == map[] then Some((0, Empty)) else Some((Latest(h), h[Latest(h)]))
    else if target in h then Some((target, h[target]))
    else None
  }

  /** DeleteVersionsTo refuses to delete the newest version. */
  function DeleteVersionsTo(h: History, to: int): History {
    if Latest(h) <= to then h else map v | v in h && v > to :: h[v]
  }

  /** LoadVersionForOverwriting drops the versions after the target. */
  function DeleteVersionsAfter(h: History, target: nat): History {
    map v | v in h && v <= target :: h[v]
  }

  /** A version loads exactly when none is before the initial version and it is saved; a
      target that is not positive loads the newest one, or the empty tree. */
  lemma LoadTreeIff(h: History, target: int, initialVersion: nat)
    ensures LoadTree(h, target, initialVersion).Some?
       <==> (forall v :: v in h ==> v >= initialVersion) && (target > 0 ==> target in h)
    ensures LoadTree(h, target, initialVersion).Some? ==>
              var (v, t) := LoadTree(h, target, initialVersion).value;
              && (target > 0 ==> v == target)
              && (if h == map[] then v == 0 && t == Empty
                  else v in h && t == h[v] && (target <= 0 ==> forall u :: u in h ==> u <= v))
  {
    if h != map[] { assert h.Keys != {}; }
    assert forall v :: v in h <==> v in h.Keys;
  }

  /** DeleteVersionsTo keeps the versions above `to`, or all when none is. */
  lemma DeletedVersions(h: History, to: int, v: nat)
    ensures v in DeleteVersionsTo(h, to) <==> v in h && (v > to || forall u :: u in h ==> u <= to)
    ensures v in DeleteVersionsTo(h, to) ==> DeleteVersionsTo(h, to)[v] == h[v]
  {
    assert forall u :: u in h <==> u in h.Keys;
  }
}
