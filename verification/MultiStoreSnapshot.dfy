// Snapshot and Restore: the stream of items a snapshot writes, how a restore consumes
// one, and that restoring a snapshot gives back the stores and the commit info.

module MultiStoreSnapshots {
  import opened Wrappers
  import opened Bytes
  import opened Iavl
  import opened MultiStores
  import opened MultiStoreLoading
  import opened MultiStoreTheorems

  /** OtherItem stands for any kind of item that is neither a store nor a node. */
  datatype SnapshotItem = StoreItem(name: Key) | NodeItem(node: ExportNode) | OtherItem(payload: seq<Byte>)

  // Snapshot

  function NodeItems(nodes: seq<ExportNode>): seq<SnapshotItem> {
    if nodes == [] then [] else NodeItems(nodes[..|nodes| - 1]) + [NodeItem(nodes[|nodes| - 1])]
  }

  predicate CanSnapshot(stores: Stores, keys: seq<StoreKey>)
    requires forall k :: k in keys ==> k in stores
  {
    forall k :: k in keys ==> !stores[k].DBAdapter?
  }

  /** The items of one store: its name, then its nodes; none for stores in memory. */
  function StoreItems(data: Data, sub: SubStore, height: nat, name: Key): Option<seq<SnapshotItem>> {
    if !sub.IavlStore? then Some([])
    else if height in HistoryOf(data, name) then
      Some([StoreItem(name)] + NodeItems(Export(HistoryOf(data, name)[height])))
    else None
  }

  function SnapshotItems(data: Data, stores: Stores, height: nat, keys: seq<StoreKey>): Option<seq<SnapshotItem>>
    requires forall k :: k in keys ==> k in stores
  {
    if keys == [] then Some([])
    else
      var k := keys[|keys| - 1];
      match (SnapshotItems(data, stores, height, keys[..|keys| - 1]), StoreItems(data, stores[k], height, k.name))
      case (Some(a), Some(b)) => Some(a + b)
      case _ => None
  }

  /** Store.Snapshot, the stores taken in name order. */
  function SnapshotOf(view: View, height: nat, keys: seq<StoreKey>): Option<seq<SnapshotItem>>
    requires forall k :: k in keys ==> k in view.stores
  {
    if height == 0 || height > GetLatestVersion(view.data) || !CanSnapshot(view.stores, keys) then None
    else SnapshotItems(view.data, view.stores, height, keys)
  }

  lemma {:induction false} ItemsIff(data: Data, stores: Stores, height: nat, keys: seq<StoreKey>)
    requires forall k :: k in keys ==> k in stores
    ensures SnapshotItems(data, stores, height, keys).Some?
       <==> forall k :: k in keys && stores[k].IavlStore? ==> height in HistoryOf(data, k.name)
  {
    if keys != [] {
      ItemsIff(data, stores, height, keys[..|keys| - 1]);
      assert keys == keys[..|keys| - 1] + [keys[|keys| - 1]];
    }
  }

  /** A snapshot is taken exactly at a height from 1 to the latest version that every IAVL
      store has, if no store is an adapter. */
  lemma SnapshotSucceedsIff(view: View, height: nat, keys: seq<StoreKey>)
    requires forall k :: k in keys ==> k in view.stores
    ensures SnapshotOf(view, height, keys).Some?
       <==> && 1 <= height <= GetLatestVersion(view.data)
            && forall k :: k in keys ==>
                 && !view.stores[k].DBAdapter?
                 && (view.stores[k].IavlStore? ==> height in HistoryOf(view.data, k.name))
  {
    ItemsIff(view.data, view.stores, height, keys);
  }

  // Restore

  /** The store being imported, with the importer's stack. */
  datatype Import = Import(key: StoreKey, stack: seq<Tree>)

  datatype Restoring = Restoring(data: Data, stores: Stores, open: Option<Import>)

  /** Importer.Commit: the imported tree becomes the only version of the store. */
  function CloseImport(r: Restoring, height: nat): Option<Restoring> {
    match r.open
    case None => Some(r)
    case Some(Import(key, stack)) =>
      if key !in r.stores || !r.stores[key].IavlStore? || height < r.stores[key].initialVersion then None
      else
        match CommitImport(stack)
        case None => None
        case Some(t) =>
          Some(Restoring(SaveHistory(r.data, key.name, map[height := t]),
                         r.stores[key := IavlStore(height, t, t, r.stores[key].initialVersion)], None))
  }

  /** store.Import: only an IAVL store that has never saved anything accepts one. */
  predicate AcceptsImport(r: Restoring, byName: map<Key, StoreKey>, name: Key) {
    && name in byName && byName[name] in r.stores && r.stores[byName[name]].IavlStore?
    && HistoryOf(r.data, byName[name].name) == map[]
    && r.stores[byName[name]].working == Empty
  }

  function RestoreItem(r: Restoring, byName: map<Key, StoreKey>, height: nat, item: SnapshotItem): Option<Restoring> {
    match item
    case StoreItem(name) =>
      (match CloseImport(r, height)
       case None => None
       case Some(c) =>
         if AcceptsImport(c, byName, name) then Some(c.(open := Some(Import(byName[name], [])))) else None)
    case NodeItem(node) =>
      if r.open.None? || node.height > MAX_HEIGHT then None
      else
        (match AddNode(r.open.value.stack, node, height)
         case None => None
         case Some(s) => Some(r.(open := Some(Import(r.open.value.key, s)))))
    case OtherItem(_) => None
  }

  function RestoreItems(r: Restoring, byName: map<Key, StoreKey>, height: nat,
                        items: seq<SnapshotItem>): Option<Restoring> {
    if items == [] then Some(r)
    else
      match RestoreItems(r, byName, height, items[..|items| - 1])
      case None => None
      case Some(s) => RestoreItem(s, byName, height, items[|items| - 1])
  }

  /** What the importer accepts: a leaf, or an inner node above the two subtrees on top of
      the stack; no node newer than the height. */
  lemma AddNodeIff(stack: seq<Tree>, node: ExportNode, height: nat)
    ensures AddNode(stack, node, height).Some?
       <==> && node.version <= height
            && (node.height == 0
                || (|stack| >= 2
                    && Height(stack[|stack| - 1]) < node.height && Height(stack[|stack| - 2]) < node.height))
  {
  }

  /** A node is imported exactly when a store is open, the node is no higher than 127, and
      its importer accepts it. */
  lemma NodeItemIff(r: Restoring, byName: map<Key, StoreKey>, height: nat, node: ExportNode)
    ensures RestoreItem(r, byName, height, NodeItem(node)).Some?
       <==> r.open.Some? && node.height <= 127 && AddNode(r.open.value.stack, node, height).Some?
  {
  }

  /** A store is opened exactly when the import before it, if there is one, ends in at most
      one tree of another IAVL store whose versions may start that low, and its name is that
      of a mounted IAVL store that has not saved anything and holds nothing. */
  lemma StoreItemIff(r: Restoring, byName: map<Key, StoreKey>, height: nat, name: Key)
    ensures RestoreItem(r, byName, height, StoreItem(name)).Some?
       <==> && (r.open.Some? ==>
                  var open := r.open.value;
                  && open.key in r.stores && r.stores[open.key].IavlStore?
                  && height >= r.stores[open.key].initialVersion && |open.stack| <= 1
                  && (name in byName ==> byName[name].name != open.key.name))
            && name in byName && byName[name] in r.stores && r.stores[byName[name]].IavlStore?
            && HistoryOf(r.data, byName[name].name) == map[] && r.stores[byName[name]].working == Empty
  {
    if r.open.Some? && name in byName && CommitImport(r.open.value.stack).Some? {
      var h := map[height := CommitImport(r.open.value.stack).value];
      AfterSave(r.data, r.open.value.key.name, h, 0, byName[name].name);
      assert height in h;
    }
  }

  /** The number of items before the first one of another kind. */
  function OwnItems(items: seq<SnapshotItem>): (n: nat)
    ensures n <= |items|
    ensures forall i :: 0 <= i < n ==> !items[i].OtherItem?
    ensures n < |items| ==> items[n].OtherItem?
  {
    if items == [] || items[0].OtherItem? then 0 else 1 + OwnItems(items[1..])
  }

  /** The stores after every import of the stream has ended. */
  function Imported(view: View, height: nat, items: seq<SnapshotItem>): Option<Restoring> {
    match RestoreItems(Restoring(view.data, view.stores, None), view.byName, height, items[..OwnItems(items)])
    case None => None
    case Some(r) => CloseImport(r, height)
  }

  /** What Restore leaves: the stores imported, the metadata rebuilt, the latest version
      loaded again. It reads up to and including the first item of another kind. */
  function RestoreView(lib: Library, view: View, height: nat, items: seq<SnapshotItem>,
                       named: seq<StoreKey>, mounted: seq<StoreKey>): Option<View>
    requires forall k :: k in mounted ==> k in view.params
    requires forall k :: k in named ==> k in view.stores
  {
    match Imported(view, height, items)
    case None => None
    case Some(c) =>
      if c.stores.Keys != view.stores.Keys then None
      else
        var info := CommitInfo(height, BuiltInfos(lib, c.stores, named));
        var mid := view.(data := Flushed(c.data, height, info), stores := c.stores);
        LoadView(lib, mid, GetLatestVersion(mid.data), NO_UPGRADES, mounted)
  }

  // The round trip

  lemma {:induction false} RestoreItemsAppend(r: Restoring, byName: map<Key, StoreKey>, height: nat,
                                              a: seq<SnapshotItem>, b: seq<SnapshotItem>)
    ensures RestoreItems(r, byName, height, a + b)
         == match RestoreItems(r, byName, height, a)
            case None => None
            case Some(s) => RestoreItems(s, byName, height, b)
  {
    if b == [] {
      assert a + b == a;
    } else {
      var n := |b| - 1;
      assert (a + b)[..|a + b| - 1] == a + b[..n];
      RestoreItemsAppend(r, byName, height, a, b[..n]);
    }
  }

  function Importing(r: Restoring, key: StoreKey, stack: seq<Tree>): Restoring {
    r.(open := Some(Import(key, stack)))
  }

  lemma RestoreNode(r: Restoring, byName: map<Key, StoreKey>, height: nat, node: ExportNode, key: StoreKey,
                    stack: seq<Tree>, more: seq<Tree>)
    requires node.height <= 127 && AddNode(stack, node, height) == Some(more)
    ensures RestoreItem(Importing(r, key, stack), byName, height, NodeItem(node)) == Some(Importing(r, key, more))
  {
  }

  lemma RestoreItemsSnoc(r: Restoring, s: Restoring, byName: map<Key, StoreKey>, height: nat,
                         items: seq<SnapshotItem>, item: SnapshotItem)
    requires RestoreItems(r, byName, height, items) == Some(s)
    ensures RestoreItems(r, byName, height, items + [item]) == RestoreItem(s, byName, height, item)
  {
    assert (items + [item])[..|items|] == items;
  }

  /** Node items feed the importer of the open store. */
  lemma {:induction false} RestoreNodes(r: Restoring, byName: map<Key, StoreKey>, height: nat, nodes: seq<ExportNode>,
                                        key: StoreKey, stack: seq<Tree>, more: seq<Tree>)
    requires forall node :: node in nodes ==> node.height <= 127
    requires AddNodes(stack, nodes, height) == Some(more)
    ensures RestoreItems(Importing(r, key, stack), byName, height, NodeItems(nodes)) == Some(Importing(r, key, more))
  {
    if nodes != [] {
      var init, node := nodes[..|nodes| - 1], nodes[|nodes| - 1];
      var mid := AddNodes(stack, init, height).value;
      RestoreNodes(r, byName, height, init, key, stack, mid);
      RestoreNode(r, byName, height, node, key, mid, more);
      RestoreItemsSnoc(Importing(r, key, stack), Importing(r, key, mid), byName, height, NodeItems(init),
                       NodeItem(node));
    }
  }

  /** Feeding the items of one IAVL store to a restore that has an importer open or not:
      what was open is committed, and the new import yields the same tree. */
  lemma RestoreStoreItems(r: Restoring, c: Restoring, byName: map<Key, StoreKey>, height: nat, key: StoreKey,
                          t: Tree) returns (s: Restoring)
    requires CloseImport(r, height) == Some(c) && c.open.None?
    requires key.name in byName && byName[key.name] == key && AcceptsImport(c, byName, key.name)
    requires c.stores[key].initialVersion <= height && SoundVersion(t, height)
    requires forall node :: node in Export(t) ==> node.height <= 127
    ensures RestoreItems(r, byName, height, [StoreItem(key.name)] + NodeItems(Export(t))) == Some(s)
    ensures CloseImport(s, height)
         == Some(Restoring(SaveHistory(c.data, key.name, map[height := t]),
                           c.stores[key := IavlStore(height, t, t, c.stores[key].initialVersion)], None))
  {
    var first := [StoreItem(key.name)];
    var begun := c.(open := Some(Import(key, [])));
    assert RestoreItems(r, byName, height, first) == Some(begun) by {
      assert first[..0] == [];
      assert RestoreItems(r, byName, height, first[..0]) == Some(r);
    }
    ExportDeterminesTree(t, height);
    RestoreNodes(c, byName, height, Export(t), key, [], AddNodes([], Export(t), height).value);
    RestoreItemsAppend(r, byName, height, first, NodeItems(Export(t)));
    s := begun.(open := Some(Import(key, AddNodes([], Export(t), height).value)));
  }

  /** A source store that can be snapshot at `height`, with no node higher than 127. */
  ghost predicate Exportable(data: Data, stores: Stores, height: nat, keys: seq<StoreKey>) {
    forall k :: k in keys ==>
      && k in stores && !stores[k].DBAdapter?
      && (stores[k].IavlStore? ==>
            && height in HistoryOf(data, k.name)
            && SoundVersion(HistoryOf(data, k.name)[height], height)
            && forall node :: node in Export(HistoryOf(data, k.name)[height]) ==> node.height <= 127)
  }

  /** A target with the same stores, none of which has saved anything. */
  ghost predicate EmptyTwin(source: Stores, data: Data, stores: Stores, byName: map<Key, StoreKey>,
                            keys: seq<StoreKey>) {
    forall k :: k in keys ==>
      && k in source && k in stores && (stores[k].IavlStore? <==> source[k].IavlStore?) && !stores[k].DBAdapter?
      && (stores[k].IavlStore? ==>
            && k.name in byName && byName[k.name] == k
            && stores[k] == IavlStore(0, Empty, Empty, 0) && HistoryOf(data, k.name) == map[])
  }

  /** What the restore of the first stores leads to. */
  ghost predicate RestoresEach(source: Data, sources: Stores, c: Restoring, data: Data, stores: Stores, height: nat,
                               keys: seq<StoreKey>) {
    && c.open.None? && c.stores.Keys == stores.Keys
    && (forall k :: k in keys && k in sources && sources[k].IavlStore? && height in HistoryOf(source, k.name) ==>
          var t := HistoryOf(source, k.name)[height];
          k in c.stores && c.stores[k] == IavlStore(height, t, t, 0) && HistoryOf(c.data, k.name) == map[height := t])
    && (forall k :: k in stores && (k !in keys || !stores[k].IavlStore?) ==> c.stores[k] == stores[k])
    && (forall name :: (forall k :: k in keys ==> k.name != name) ==> HistoryOf(c.data, name) == HistoryOf(data, name))
  }

  /** Restoring the snapshot of these stores leads to r and, once the last import is closed, to c. */
  ghost predicate SnapshotLeadsTo(source: Data, sources: Stores, data: Data, stores: Stores, byName: map<Key, StoreKey>,
                                  height: nat, keys: seq<StoreKey>, r: Restoring, c: Restoring)
    requires forall k :: k in keys ==> k in sources
  {
    var items := SnapshotItems(source, sources, height, keys);
    && items.Some?
    && RestoreItems(Restoring(data, stores, None), byName, height, items.value) == Some(r)
    && CloseImport(r, height) == Some(c)
    && RestoresEach(source, sources, c, data, stores, height, keys)
  }

  lemma RestoresEachSame(source: Data, sources: Stores, c: Restoring, data: Data, stores: Stores, height: nat,
                         a: seq<StoreKey>, b: seq<StoreKey>)
    requires a == b && RestoresEach(source, sources, c, data, stores, height, a)
    ensures RestoresEach(source, sources, c, data, stores, height, b)
  {
  }

  /** After the items `a`, which lead to r and, when closed, to c, those of one more store. */
  lemma RestoreOneStore(source: Data, a: seq<SnapshotItem>, data: Data, stores: Stores, byName: map<Key, StoreKey>,
                        height: nat, last: StoreKey, r: Restoring, c: Restoring)
    returns (b: seq<SnapshotItem>, s: Restoring, d: Restoring)
    requires RestoreItems(Restoring(data, stores, None), byName, height, a) == Some(r)
    requires CloseImport(r, height) == Some(c) && c.open.None?
    requires last.name in byName && byName[last.name] == last
    requires last in c.stores && c.stores[last] == IavlStore(0, Empty, Empty, 0)
    requires HistoryOf(c.data, last.name) == map[]
    requires height in HistoryOf(source, last.name)
    requires SoundVersion(HistoryOf(source, last.name)[height], height)
    requires forall node :: node in Export(HistoryOf(source, last.name)[height]) ==> node.height <= 127
    ensures b == [StoreItem(last.name)] + NodeItems(Export(HistoryOf(source, last.name)[height]))
    ensures RestoreItems(Restoring(data, stores, None), byName, height, a + b) == Some(s)
    ensures CloseImport(s, height) == Some(d)
    ensures var t := HistoryOf(source, last.name)[height];
            && d.open.None? && d.stores == c.stores[last := IavlStore(height, t, t, 0)]
            && forall name ::
                 HistoryOf(d.data, name) == if name == last.name then map[height := t] else HistoryOf(c.data, name)
  {
    var t := HistoryOf(source, last.name)[height];
    b := [StoreItem(last.name)] + NodeItems(Export(t));
    s := RestoreStoreItems(r, c, byName, height, last, t);
    RestoreItemsAppend(Restoring(data, stores, None), byName, height, a, b);
    AfterSaveEverywhere(c.data, last.name, map[height := t]);
    d := CloseImport(s, height).value;
  }

  lemma OneMoreRestored(source: Data, sources: Stores, c: Restoring, d: Restoring, data: Data, stores: Stores,
                        height: nat, init: seq<StoreKey>, last: StoreKey)
    requires RestoresEach(source, sources, c, data, stores, height, init)
    requires last in stores && last in sources && sources[last].IavlStore? && stores[last].IavlStore?
    requires height in HistoryOf(source, last.name) && forall k :: k in init ==> k.name != last.name
    requires var t := HistoryOf(source, last.name)[height];
             && d.open.None? && d.stores == c.stores[last := IavlStore(height, t, t, 0)]
             && forall name ::
                  HistoryOf(d.data, name) == if name == last.name then map[height := t] else HistoryOf(c.data, name)
    ensures RestoresEach(source, sources, d, data, stores, height, init + [last])
  {
  }

  lemma RestoreOneMore(source: Data, sources: Stores, data: Data, stores: Stores, byName: map<Key, StoreKey>,
                       height: nat,
                       init: seq<StoreKey>, last: StoreKey, keys: seq<StoreKey>, r: Restoring, c: Restoring)
    returns (s: Restoring, d: Restoring)
    requires keys == init + [last] && forall k :: k in init ==> k in sources && k.name != last.name
    requires last in sources && sources[last].IavlStore?
    requires Exportable(source, sources, height, [last]) && EmptyTwin(sources, data, stores, byName, [last])
    requires SnapshotLeadsTo(source, sources, data, stores, byName, height, init, r, c)
    ensures SnapshotLeadsTo(source, sources, data, stores, byName, height, keys, s, d)
  {
    assert last in [last] && last !in init;
    assert HistoryOf(c.data, last.name) == HistoryOf(data, last.name);
    var a := SnapshotItems(source, sources, height, init).value;
    var b;
    b, s, d := RestoreOneStore(source, a, data, stores, byName, height, last, r, c);
    OneMoreRestored(source, sources, c, d, data, stores, height, init, last);
    assert keys[..|init|] == init;
    assert SnapshotItems(source, sources, height, keys) == Some(a + b);
    RestoresEachSame(source, sources, d, data, stores, height, init + [last], keys);
  }

  lemma OneMoreSkipped(source: Data, sources: Stores, c: Restoring, data: Data, stores: Stores,
                       height: nat, init: seq<StoreKey>, last: StoreKey)
    requires RestoresEach(source, sources, c, data, stores, height, init)
    requires last in stores && last in sources && !sources[last].IavlStore? && !stores[last].IavlStore?
    ensures RestoresEach(source, sources, c, data, stores, height, init + [last])
  {
  }

  lemma SkipOneMore(source: Data, sources: Stores, data: Data, stores: Stores, byName: map<Key, StoreKey>, height: nat,
                    init: seq<StoreKey>, last: StoreKey, keys: seq<StoreKey>, r: Restoring, c: Restoring)
    requires keys == init + [last] && forall k :: k in init ==> k in sources && k.name != last.name
    requires last in sources && !sources[last].IavlStore?
    requires EmptyTwin(sources, data, stores, byName, [last])
    requires SnapshotLeadsTo(source, sources, data, stores, byName, height, init, r, c)
    ensures SnapshotLeadsTo(source, sources, data, stores, byName, height, keys, r, c)
  {
    assert last in [last];
    assert keys[..|init|] == init;
    var a := SnapshotItems(source, sources, height, init).value;
    assert a + [] == a;
    OneMoreSkipped(source, sources, c, data, stores, height, init, last);
    RestoresEachSame(source, sources, c, data, stores, height, init + [last], keys);
  }

  lemma {:induction false} RestoreSnapshotItems(source: Data, sources: Stores, data: Data, stores: Stores,
                                                byName: map<Key, StoreKey>, height: nat, keys: seq<StoreKey>)
    returns (r: Restoring, c: Restoring)
    requires DistinctNames(keys) && Exportable(source, sources, height, keys)
    requires EmptyTwin(sources, data, stores, byName, keys)
    ensures SnapshotLeadsTo(source, sources, data, stores, byName, height, keys, r, c)
  {
    if keys == [] {
      r := Restoring(data, stores, None);
      c := r;
    } else {
      var init, last := keys[..|keys| - 1], keys[|keys| - 1];
      DistinctInit(keys);
      r, c := RestoreSnapshotItems(source, sources, data, stores, byName, height, init);
      assert Exportable(source, sources, height, [last]) && EmptyTwin(sources, data, stores, byName, [last]);
      if sources[last].IavlStore? {
        r, c := RestoreOneMore(source, sources, data, stores, byName, height, init, last, keys, r, c);
      } else {
        SkipOneMore(source, sources, data, stores, byName, height, init, last, keys, r, c);
      }
    }
  }

  /** The commit info of the given version: every IAVL store with the hash of its tree then. */
  function InfosAt(lib: Library, data: Data, stores: Stores, height: nat, keys: seq<StoreKey>): seq<StoreInfo> {
    if keys == [] then []
    else
      var k := keys[|keys| - 1];
      InfosAt(lib, data, stores, height, keys[..|keys| - 1])
      + if k in stores && stores[k].IavlStore? && height in HistoryOf(data, k.name)
        then [StoreInfo(k.name, CommitID(height, lib.hash(HistoryOf(data, k.name)[height])))] else []
  }

  lemma {:induction false} BuiltInfosAre(lib: Library, source: Data, sources: Stores, stores: Stores, height: nat,
                                         keys: seq<StoreKey>)
    requires forall k :: k in keys ==> k in stores && k in sources && (stores[k].IavlStore? <==> sources[k].IavlStore?)
                                       && !stores[k].DBAdapter?
    requires forall k :: k in keys && sources[k].IavlStore? ==>
               height in HistoryOf(source, k.name)
               && stores[k].version == height && stores[k].saved == HistoryOf(source, k.name)[height]
    ensures BuiltInfos(lib, stores, keys) == InfosAt(lib, source, sources, height, keys)
  {
    if keys != [] {
      BuiltInfosAre(lib, source, sources, stores, height, keys[..|keys| - 1]);
    }
  }

  /** What may follow a snapshot in its stream: nothing, or an item of another kind first. */
  predicate EndsSnapshot(tail: seq<SnapshotItem>) {
    tail == [] || tail[0].OtherItem?
  }

  lemma {:induction false} NodeItemsAreNodes(nodes: seq<ExportNode>)
    ensures forall i :: 0 <= i < |NodeItems(nodes)| ==> NodeItems(nodes)[i].NodeItem?
  {
    if nodes != [] {
      NodeItemsAreNodes(nodes[..|nodes| - 1]);
    }
  }

  lemma {:induction false} SnapshotHasOwnItems(data: Data, stores: Stores, height: nat, keys: seq<StoreKey>)
    requires forall k :: k in keys ==> k in stores
    requires SnapshotItems(data, stores, height, keys).Some?
    ensures forall i :: 0 <= i < |SnapshotItems(data, stores, height, keys).value| ==>
              !SnapshotItems(data, stores, height, keys).value[i].OtherItem?
  {
    if keys != [] {
      var k := keys[|keys| - 1];
      SnapshotHasOwnItems(data, stores, height, keys[..|keys| - 1]);
      if stores[k].IavlStore? { NodeItemsAreNodes(Export(HistoryOf(data, k.name)[height])); }
    }
  }

  lemma {:induction false} FirstOther(items: seq<SnapshotItem>, tail: seq<SnapshotItem>)
    requires EndsSnapshot(tail) && forall i :: 0 <= i < |items| ==> !items[i].OtherItem?
    ensures OwnItems(items + tail) == |items|
  {
    if items == [] {
      assert items + tail == tail;
    } else {
      assert (items + tail)[0] == items[0];
      assert (items + tail)[1..] == items[1..] + tail;
      FirstOther(items[1..], tail);
    }
  }

  lemma OwnItemsOfSnapshot(data: Data, stores: Stores, height: nat, keys: seq<StoreKey>, items: seq<SnapshotItem>,
                           tail: seq<SnapshotItem>)
    requires forall k :: k in keys ==> k in stores
    requires SnapshotItems(data, stores, height, keys) == Some(items) && EndsSnapshot(tail)
    ensures OwnItems(items + tail) == |items|
    ensures (items + tail)[..|items|] == items
  {
    SnapshotHasOwnItems(data, stores, height, keys);
    FirstOther(items, tail);
  }

  /** A source that can be snapshot at `height`, and an empty target with the same mounts. */
  ghost predicate Twins(source: View, target: View, height: nat, named: seq<StoreKey>, mounted: seq<StoreKey>) {
    && InNameOrder(named, source.stores.Keys) && NamesDiffer(source.stores.Keys)
    && Exportable(source.data, source.stores, height, named)
    && target.stores.Keys == source.stores.Keys
    && EmptyTwin(source.stores, target.data, target.stores, target.byName, named)
    && MountsMatch(target.params, target.stores) && Enumerates(mounted, target.params.Keys)
  }

  /** Every IAVL store of the target has the tree the source had at that height, as its only version. */
  ghost predicate SameAt(source: View, target: View, after: View, height: nat) {
    forall k :: k in target.params && target.params[k] == TypeIAVL ==>
      && height in HistoryOf(source.data, k.name)
      && var t := HistoryOf(source.data, k.name)[height];
      && k in after.stores && after.stores[k] == IavlStore(height, t, t, 0)
      && HistoryOf(after.data, k.name) == map[height := t]
  }

  lemma StreamImports(source: View, target: View, height: nat, named: seq<StoreKey>, mounted: seq<StoreKey>,
                      tail: seq<SnapshotItem>) returns (c: Restoring)
    requires Twins(source, target, height, named, mounted)
    requires 1 <= height <= GetLatestVersion(source.data) && EndsSnapshot(tail)
    ensures SnapshotOf(source, height, named).Some?
    ensures RestoresEach(source.data, source.stores, c, target.data, target.stores, height, named)
    ensures var stream := SnapshotOf(source, height, named).value + tail;
            && OwnItems(stream) == |SnapshotOf(source, height, named).value|
            && Imported(target, height, stream) == Some(c)
  {
    OrderedKeysDistinct(named, source.stores.Keys);
    var r;
    r, c := RestoreSnapshotItems(source.data, source.stores, target.data, target.stores, target.byName, height, named);
    var items := SnapshotItems(source.data, source.stores, height, named).value;
    OwnItemsOfSnapshot(source.data, source.stores, height, named, items, tail);
  }

  /** Restoring the stream comes down to the reload after all items are imported. */
  lemma StreamRestores(lib: Library, source: View, target: View, height: nat, named: seq<StoreKey>,
                       mounted: seq<StoreKey>, tail: seq<SnapshotItem>) returns (c: Restoring, mid: View)
    requires Twins(source, target, height, named, mounted)
    requires 1 <= height <= GetLatestVersion(source.data) && EndsSnapshot(tail)
    ensures SnapshotOf(source, height, named).Some?
    ensures RestoresEach(source.data, source.stores, c, target.data, target.stores, height, named)
    ensures var info := CommitInfo(height, BuiltInfos(lib, c.stores, named));
            mid == target.(data := Flushed(c.data, height, info), stores := c.stores)
    ensures var stream := SnapshotOf(source, height, named).value + tail;
            && OwnItems(stream) == |SnapshotOf(source, height, named).value|
            && RestoreView(lib, target, height, stream, named, mounted)
               == LoadView(lib, mid, GetLatestVersion(mid.data), NO_UPGRADES, mounted)
  {
    c := StreamImports(source, target, height, named, mounted, tail);
    var info := CommitInfo(height, BuiltInfos(lib, c.stores, named));
    mid := target.(data := Flushed(c.data, height, info), stores := c.stores);
  }

  /** A restored store agrees with its history, with its entry and with the source. */
  ghost predicate RestoredProperly(lib: Library, source: View, mid: View, height: nat, info: CommitInfo, k: StoreKey)
    requires k in mid.stores
  {
    var sub := mid.stores[k];
    && BackedByDisk(mid.data, k.name, sub)
    && (sub.IavlStore? ==>
          && sub.version == height
          && FindInfo(info.storeInfos, k.name) == Some(CommitID(height, lib.hash(sub.saved)))
          && height in HistoryOf(source.data, k.name)
          && HistoryOf(mid.data, k.name) == map[height := HistoryOf(source.data, k.name)[height]]
          && sub.saved == HistoryOf(source.data, k.name)[height])
  }

  lemma OneRestored(lib: Library, source: View, c: Restoring, mid: View, height: nat, named: seq<StoreKey>,
                    info: CommitInfo, k: StoreKey)
    requires DistinctNames(named) && k in named && forall m :: m in named ==> m in c.stores
    requires c.stores[k].IavlStore? ==>
               && height in HistoryOf(source.data, k.name)
               && var t := HistoryOf(source.data, k.name)[height];
               && c.stores[k] == IavlStore(height, t, t, 0) && HistoryOf(c.data, k.name) == map[height := t]
    requires mid.stores == c.stores && HistoryOf(mid.data, k.name) == HistoryOf(c.data, k.name) && height >= 1
    requires info == CommitInfo(height, BuiltInfos(lib, c.stores, named))
    ensures RestoredProperly(lib, source, mid, height, info, k)
  {
    BuiltInfosFind(lib, c.stores, named, k.name);
  }

  lemma RestoredInLockstep(lib: Library, source: View, target: View, c: Restoring, mid: View, committed: View,
                           height: nat, named: seq<StoreKey>, mounted: seq<StoreKey>, info: CommitInfo)
    requires Twins(source, target, height, named, mounted) && height >= 1
    requires RestoresEach(source.data, source.stores, c, target.data, target.stores, height, named)
    requires info == CommitInfo(height, BuiltInfos(lib, c.stores, named))
    requires mid == target.(data := Flushed(c.data, height, info), stores := c.stores)
    requires committed == mid.(lastInfo := Some(info))
    ensures GetLatestVersion(mid.data) == height && GetCommitInfo(mid.data, height) == Some(info)
    ensures Lockstep(lib, committed)
    ensures forall k :: k in mid.stores ==> RestoredProperly(lib, source, mid, height, info, k)
  {
    AfterFlush(c.data, height, info, height, []);
    OrderedKeysDistinct(named, source.stores.Keys);
    forall k | k in mid.stores
      ensures RestoredProperly(lib, source, mid, height, info, k)
    {
      AfterFlush(c.data, height, info, height, k.name);
      OneRestored(lib, source, c, mid, height, named, info, k);
    }
  }

  lemma SameInfos(lib: Library, source: View, target: View, c: Restoring, height: nat,
                  named: seq<StoreKey>, mounted: seq<StoreKey>)
    requires Twins(source, target, height, named, mounted)
    requires RestoresEach(source.data, source.stores, c, target.data, target.stores, height, named)
    ensures BuiltInfos(lib, c.stores, named) == InfosAt(lib, source.data, source.stores, height, named)
  {
    BuiltInfosAre(lib, source.data, source.stores, c.stores, height, named);
  }

  /** The reload at the end of Restore succeeds and loads the imported trees. */
  lemma RestoredReloads(lib: Library, source: View, target: View, c: Restoring, mid: View, height: nat,
                        named: seq<StoreKey>, mounted: seq<StoreKey>)
    requires Twins(source, target, height, named, mounted) && height >= 1
    requires RestoresEach(source.data, source.stores, c, target.data, target.stores, height, named)
    requires var info := CommitInfo(height, BuiltInfos(lib, c.stores, named));
             mid == target.(data := Flushed(c.data, height, info), stores := c.stores)
    ensures GetLatestVersion(mid.data) == height
    ensures LoadView(lib, mid, height, NO_UPGRADES, mounted).Some?
    ensures var after := LoadView(lib, mid, height, NO_UPGRADES, mounted).value;
            && after.data == mid.data
            && after.lastInfo == Some(CommitInfo(height, InfosAt(lib, source.data, source.stores, height, named)))
            && GetCommitInfo(mid.data, height) == after.lastInfo
            && SameAt(source, target, after, height)
  {
    var info := CommitInfo(height, BuiltInfos(lib, c.stores, named));
    var committed := mid.(lastInfo := Some(info));
    RestoredInLockstep(lib, source, target, c, mid, committed, height, named, mounted, info);
    SameInfos(lib, source, target, c, height, named, mounted);
    LockstepReloads(lib, committed, mid, mounted);
  }

  /** Restoring the stream of a snapshot of `height` into an empty store with the same
      mounts: every IAVL store gets the tree the source had at that height as its only
      version, and the commit info lists the same hashes. Whether the stream ends there or
      goes on with an extension item, the snapshot is what is consumed as its own. */
  lemma SnapshotRoundTrip(lib: Library, source: View, target: View, height: nat, named: seq<StoreKey>,
                          mounted: seq<StoreKey>, tail: seq<SnapshotItem>)
    requires Twins(source, target, height, named, mounted)
    requires 1 <= height <= GetLatestVersion(source.data) && EndsSnapshot(tail)
    ensures SnapshotOf(source, height, named).Some?
    ensures var stream := SnapshotOf(source, height, named).value + tail;
            && OwnItems(stream) == |SnapshotOf(source, height, named).value|
            && RestoreView(lib, target, height, stream, named, mounted).Some?
            && var after := RestoreView(lib, target, height, stream, named, mounted).value;
            && after.lastInfo == Some(CommitInfo(height, InfosAt(lib, source.data, source.stores, height, named)))
            && GetLatestVersion(after.data) == height && GetCommitInfo(after.data, height) == after.lastInfo
            && SameAt(source, target, after, height)
  {
    var c, mid := StreamRestores(lib, source, target, height, named, mounted, tail);
    RestoredReloads(lib, source, target, c, mid, height, named, mounted);
  }

  function Kept(keys: seq<StoreKey>, removal: set<StoreKey>): seq<StoreKey> {
    if keys == [] then []
    else
      var last := keys[|keys| - 1];
      Kept(keys[..|keys| - 1], removal) + if last in removal then [] else [last]
  }

  lemma {:induction false} KeptInNameOrder(keys: seq<StoreKey>, all: set<StoreKey>, removal: set<StoreKey>)
    requires InNameOrder(keys, all)
    ensures InNameOrder(Kept(keys, removal), all - removal)
  {
    if keys != [] {
      var init, last := keys[..|keys| - 1], keys[|keys| - 1];
      assert keys == init + [last];
      var kept := Kept(init, removal);
      KeptInNameOrder(init, all - {last}, removal);
      forall i | 0 <= i < |kept|
        ensures kept[i] != last && !Less(last.name, kept[i].name)
      {
        assert kept[i] in kept && kept[i] in init;
        var j :| 0 <= j < |init| && init[j] == kept[i];
        assert keys[j] == init[j] && keys[|init|] == last;
      }
      forall k
        ensures k in Kept(keys, removal) <==> k in all - removal
      {
        assert k in kept <==> k in (all - {last}) - removal;
      }
    }
  }

  /** A store whose entry is the one its history gives. */
  ghost predicate ListsProperly(c: Commits, data: Data, stores: Stores, version: nat, k: StoreKey) {
    && k in c.stores && k in stores && ReadyFor(c.stores[k], version)
    && stores[k] == CommittedStore(HistoryOf(c.data, k.name), c.stores[k], version)
    && BackedByDisk(data, k.name, stores[k])
    && (stores[k].IavlStore? ==> stores[k].version == version)
  }

  lemma OneListed(lib: Library, c: Commits, removal: set<StoreKey>, data: Data, stores: Stores, version: nat,
                  k: StoreKey)
    requires version >= 1 && ListsProperly(c, data, stores, version, k) && !stores[k].DBAdapter? && k !in removal
    ensures Listed(lib, HistoryOf(c.data, k.name), c.stores[k], removal, version, k)
         == if stores[k].IavlStore? && version in HistoryOf(data, k.name)
            then [StoreInfo(k.name, CommitID(version, lib.hash(HistoryOf(data, k.name)[version])))] else []
  {
  }

  lemma InfosAtSnoc(lib: Library, data: Data, stores: Stores, height: nat, keys: seq<StoreKey>, k: StoreKey)
    ensures InfosAt(lib, data, stores, height, keys + [k])
         == InfosAt(lib, data, stores, height, keys)
            + if k in stores && stores[k].IavlStore? && height in HistoryOf(data, k.name)
              then [StoreInfo(k.name, CommitID(height, lib.hash(HistoryOf(data, k.name)[height])))] else []
  {
    assert (keys + [k])[..|keys|] == keys;
  }

  lemma {:induction false} ListedAreInfosAt(lib: Library, c: Commits, removal: set<StoreKey>, data: Data,
                                            stores: Stores, version: nat, keys: seq<StoreKey>)
    requires version >= 1 && forall k :: k in keys ==> k in c.stores
    requires forall k :: k in keys && k !in removal ==>
               ListsProperly(c, data, stores, version, k) && !stores[k].DBAdapter?
    ensures ListedAll(lib, c, removal, version, keys) == InfosAt(lib, data, stores, version, Kept(keys, removal))
  {
    if keys != [] {
      var init, k := keys[..|keys| - 1], keys[|keys| - 1];
      ListedAreInfosAt(lib, c, removal, data, stores, version, init);
      if k in removal {
        assert Kept(keys, removal) == Kept(init, removal);
      } else {
        assert k in keys;
        OneListed(lib, c, removal, data, stores, version, k);
        InfosAtSnoc(lib, data, stores, version, Kept(init, removal), k);
      }
    }
  }

  lemma ListedProperly(lib: Library, view: View, keys: seq<StoreKey>, after: View, k: StoreKey)
    requires Healthy(view) && InNameOrder(keys, view.stores.Keys) && CommitView(lib, view, keys) == Some(after)
    requires k in view.stores && k !in view.removal
    requires forall d :: d in after.stores ==> !after.stores[d].DBAdapter?
    ensures ListsProperly(Commits(view.data, view.stores, []), after.data, after.stores, NextVersion(view), k)
  {
    OneCommittedProperly(lib, view, keys, k);
    CommitKeepsStore(lib, view, keys, k);
  }

  lemma ListsKept(lib: Library, view: View, keys: seq<StoreKey>, after: View)
    requires Healthy(view) && InNameOrder(keys, view.stores.Keys) && CommitView(lib, view, keys) == Some(after)
    requires forall k :: k in after.stores ==> !after.stores[k].DBAdapter?
    ensures NextVersion(view) >= 0
    ensures var next := NextVersion(view);
            after.lastInfo
            == Some(CommitInfo(next, InfosAt(lib, after.data, after.stores, next, Kept(keys, view.removal))))
    ensures after.stores.Keys == view.stores.Keys - view.removal
  {
    var c := CommitViewParts(lib, view, keys);
    forall k | k in keys && k !in view.removal
      ensures ListsProperly(Commits(view.data, view.stores, []), after.data, after.stores, NextVersion(view), k)
    {
      ListedProperly(lib, view, keys, after, k);
    }
    ListedAreInfosAt(lib, Commits(view.data, view.stores, []), view.removal, after.data, after.stores,
                     NextVersion(view), keys);
  }

  /** An ordinary commit writes exactly such a commit info. */
  lemma CommitWritesInfosAt(lib: Library, view: View, keys: seq<StoreKey>, after: View, named: seq<StoreKey>)
    requires Healthy(view) && InNameOrder(keys, view.stores.Keys) && CommitView(lib, view, keys) == Some(after)
    requires InNameOrder(named, after.stores.Keys) && forall k :: k in after.stores ==> !after.stores[k].DBAdapter?
    ensures after.lastInfo
            == Some(CommitInfo(NextVersion(view), InfosAt(lib, after.data, after.stores, NextVersion(view), named)))
  {
    ListsKept(lib, view, keys, after);
    KeptInNameOrder(keys, view.stores.Keys, view.removal);
    NameOrderUnique(named, Kept(keys, view.removal), after.stores.Keys);
  }

  /** A snapshot of what a Commit just wrote, restored elsewhere, gives the very commit
      info of that Commit: the two stores have the same last commit id. */
  lemma CommittedSnapshotRoundTrip(lib: Library, view: View, keys: seq<StoreKey>, source: View, target: View,
                                   named: seq<StoreKey>, mounted: seq<StoreKey>, tail: seq<SnapshotItem>)
    requires Healthy(view) && InNameOrder(keys, view.stores.Keys) && CommitView(lib, view, keys) == Some(source)
    requires Twins(source, target, NextVersion(view), named, mounted) && EndsSnapshot(tail)
    ensures SnapshotOf(source, NextVersion(view), named).Some?
    ensures var stream := SnapshotOf(source, NextVersion(view), named).value + tail;
            && RestoreView(lib, target, NextVersion(view), stream, named, mounted).Some?
            && var after := RestoreView(lib, target, NextVersion(view), stream, named, mounted).value;
            && after.lastInfo == source.lastInfo
            && SameAt(source, target, after, NextVersion(view))
  {
    CommitKeepsLockstep(lib, view, keys);
    CommitWritesInfosAt(lib, view, keys, source, named);
    SnapshotRoundTrip(lib, source, target, NextVersion(view), named, mounted, tail);
  }

  // Restoring any stream

  /** Importing keeps every substore backed by disk. */
  lemma CloseKeepsBacked(r: Restoring, height: nat)
    requires NamesDiffer(r.stores.Keys) && PositiveVersions(r.data) && AllBacked(r.data, r.stores) && height >= 1
    requires CloseImport(r, height).Some?
    ensures var c := CloseImport(r, height).value;
            c.stores.Keys == r.stores.Keys && PositiveVersions(c.data) && AllBacked(c.data, c.stores)
  {
    if r.open.Some? {
      var key := r.open.value.key;
      var c := CloseImport(r, height).value;
      AfterSaveEverywhere(r.data, key.name, map[height := CommitImport(r.open.value.stack).value]);
      forall k | k in c.stores
        ensures BackedByDisk(c.data, k.name, c.stores[k])
      {
        assert BackedByDisk(r.data, k.name, r.stores[k]);
      }
      forall name
        ensures 0 !in HistoryOf(c.data, name)
      {
        assert 0 !in HistoryOf(r.data, name);
      }
    }
  }

  lemma {:induction false} RestoreKeepsBacked(r: Restoring, byName: map<Key, StoreKey>, height: nat,
                                              items: seq<SnapshotItem>)
    requires NamesDiffer(r.stores.Keys) && PositiveVersions(r.data) && AllBacked(r.data, r.stores) && height >= 1
    requires RestoreItems(r, byName, height, items).Some?
    ensures var s := RestoreItems(r, byName, height, items).value;
            s.stores.Keys == r.stores.Keys && PositiveVersions(s.data) && AllBacked(s.data, s.stores)
  {
    if items != [] {
      RestoreKeepsBacked(r, byName, height, items[..|items| - 1]);
      var s := RestoreItems(r, byName, height, items[..|items| - 1]).value;
      if items[|items| - 1].StoreItem? {
        CloseKeepsBacked(s, height);
      }
    }
  }

  /** The store an import is open for has no versions yet. */
  predicate OpenIsFresh(r: Restoring) {
    r.open.Some? ==> HistoryOf(r.data, r.open.value.key.name) == map[]
  }

  /** Metadata is the same, and so is every history that had a version. */
  ghost predicate OnlyFreshFilled(before: Data, after: Data) {
    && SameMetadata(before, after)
    && forall name :: HistoryOf(before, name) != map[] ==> HistoryOf(after, name) == HistoryOf(before, name)
  }

  lemma CloseFillsFresh(r: Restoring, height: nat)
    requires OpenIsFresh(r) && CloseImport(r, height).Some?
    ensures OnlyFreshFilled(r.data, CloseImport(r, height).value.data)
  {
    if r.open.Some? {
      AfterSaveEverywhere(r.data, r.open.value.key.name, map[height := CommitImport(r.open.value.stack).value]);
    }
  }

  lemma FreshTransitive(a: Data, b: Data, c: Data)
    requires OnlyFreshFilled(a, b) && OnlyFreshFilled(b, c)
    ensures OnlyFreshFilled(a, c)
  {
  }

  /** Importing touches neither metadata nor a store that has a version. */
  lemma {:induction false} RestoreFillsFresh(r: Restoring, byName: map<Key, StoreKey>, height: nat,
                                             items: seq<SnapshotItem>)
    requires OpenIsFresh(r) && RestoreItems(r, byName, height, items).Some?
    ensures var s := RestoreItems(r, byName, height, items).value;
            OpenIsFresh(s) && OnlyFreshFilled(r.data, s.data)
  {
    if items != [] {
      var init := items[..|items| - 1];
      RestoreFillsFresh(r, byName, height, init);
      var s := RestoreItems(r, byName, height, init).value;
      if items[|items| - 1].StoreItem? {
        CloseFillsFresh(s, height);
        FreshTransitive(r.data, s.data, CloseImport(s, height).value.data);
      }
    }
  }

  /** Whatever the stream, a successful restore ends in lockstep at its height. */
  lemma RestoreEndsInLockstep(lib: Library, view: View, height: nat, items: seq<SnapshotItem>,
                              named: seq<StoreKey>, mounted: seq<StoreKey>)
    requires Healthy(view) && height >= 1
    requires InNameOrder(named, view.stores.Keys) && Enumerates(mounted, view.params.Keys)
    requires RestoreView(lib, view, height, items, named, mounted).Some?
    ensures var after := RestoreView(lib, view, height, items, named, mounted).value;
            Lockstep(lib, after) && Healthy(after) && after.lastInfo.value.version == height
  {
    var start := Restoring(view.data, view.stores, None);
    RestoreKeepsBacked(start, view.byName, height, items[..OwnItems(items)]);
    var r := RestoreItems(start, view.byName, height, items[..OwnItems(items)]).value;
    CloseKeepsBacked(r, height);
    var c := CloseImport(r, height).value;
    var info := CommitInfo(height, BuiltInfos(lib, c.stores, named));
    HistoriesAfterFlush(c.data, height, info);
    RebuiltMetadataLoads(lib, view.(data := c.data, stores := c.stores), height, named, mounted,
                         view.(data := Flushed(c.data, height, info), stores := c.stores),
                         RestoreView(lib, view, height, items, named, mounted).value);
  }
}
