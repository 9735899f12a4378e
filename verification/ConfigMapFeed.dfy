/** The Kubernetes configuration store: differences between ConfigMaps and the change feed that a
    subscriber folds into its own view. */
module ConfigMapFeed {
  import opened Wrappers
  import opened Base64

  datatype ConfigMap = ConfigMap(data: map<string, string>, binaryData: map<string, seq<Byte>>, resourceVersion: string)

  datatype Item = Item(value: string, version: string, metadata: map<string, string>)

  type Items = map<string, Item>

  const TEXT: map<string, string> := map[]
  const BINARY := map["encoding" := "base64"]
  const DELETED := map["deleted" := "true"]

  /** A key lives in one of the two sections; Kubernetes enforces this. */
  predicate Disjoint(cm: ConfigMap) {
    cm.data.Keys !! cm.binaryData.Keys
  }

  function AllKeys(cm: ConfigMap): set<string> {
    cm.data.Keys + cm.binaryData.Keys
  }

  // ---------------------------------------------------------------- the full view

  function TextItem(value: string, version: string): Item { Item(value, version, TEXT) }

  function BinaryItem(value: seq<Byte>, version: string): Item { Item(Encode(value), version, BINARY) }

  function DeletedItem(version: string): Item { Item("", version, DELETED) }

  function ItemsOf(cm: ConfigMap): Items {
    map k | k in AllKeys(cm) ::
      if k in cm.binaryData then BinaryItem(cm.binaryData[k], cm.resourceVersion)
      else TextItem(cm.data[k], cm.resourceVersion)
  }

  /** The view of part of a ConfigMap: `keys` of the text section, `bins` of the binary one. */
  ghost function Part(cm: ConfigMap, keys: set<string>, bins: set<string>): ConfigMap {
    ConfigMap(map k | k in cm.data && k in keys :: cm.data[k],
              map k | k in cm.binaryData && k in bins :: cm.binaryData[k], cm.resourceVersion)
  }

  lemma PartGrows(cm: ConfigMap, keys: set<string>, bins: set<string>, k: string)
    ensures k in cm.data && bins == {} ==>
              ItemsOf(Part(cm, keys + {k}, {})) ==
              ItemsOf(Part(cm, keys, {}))[k := TextItem(cm.data[k], cm.resourceVersion)]
    ensures k in cm.binaryData ==>
              ItemsOf(Part(cm, keys, bins + {k})) ==
              ItemsOf(Part(cm, keys, bins))[k := BinaryItem(cm.binaryData[k], cm.resourceVersion)]
  {
    hide TextItem, BinaryItem;
  }

  lemma PartWhole(cm: ConfigMap)
    ensures Part(cm, cm.data.Keys, cm.binaryData.Keys) == cm
    ensures ItemsOf(Part(cm, {}, {})) == map[]
  {
  }

  /** The full view, field by field. */
  lemma ViewFields(cm: ConfigMap)
    ensures ItemsOf(cm).Keys == cm.data.Keys + cm.binaryData.Keys
    ensures forall k :: k in cm.binaryData ==>
              && ItemsOf(cm)[k] == Item(ItemsOf(cm)[k].value, cm.resourceVersion, map["encoding" := "base64"])
              && Decode(ItemsOf(cm)[k].value) == Ints(cm.binaryData[k])
    ensures forall k :: k in cm.data && k !in cm.binaryData ==>
              ItemsOf(cm)[k] == Item(cm.data[k], cm.resourceVersion, map[])
  {
    hide Decode, Encode, Ints;
    forall k | k in cm.binaryData ensures Decode(ItemsOf(cm)[k].value) == Ints(cm.binaryData[k]) {
      RoundTrip(cm.binaryData[k]);
    }
  }

  method ConfigMapToItems(cm: ConfigMap) returns (items: Items)
    ensures items == ItemsOf(cm)
    ensures items.Keys == cm.data.Keys + cm.binaryData.Keys
    ensures forall k :: k in cm.binaryData ==>
              && items[k] == Item(items[k].value, cm.resourceVersion, map["encoding" := "base64"])
              && Decode(items[k].value) == Ints(cm.binaryData[k])
    ensures forall k :: k in cm.data && k !in cm.binaryData ==> items[k] == Item(cm.data[k], cm.resourceVersion, map[])
  {
    ViewFields(cm);
    hide ItemsOf, Part, TextItem, BinaryItem, Decode;
    PartWhole(cm);
    items := map[];
    var left := cm.data.Keys;
    ghost var done: set<string> := {};
    while left != {}
      invariant done + left == cm.data.Keys && items == ItemsOf(Part(cm, done, {}))
      decreases left
    {
      var k :| k in left;
      PartGrows(cm, done, {}, k);
      items := items[k := TextItem(cm.data[k], cm.resourceVersion)];
      left, done := left - {k}, done + {k};
    }
    left, done := cm.binaryData.Keys, {};
    while left != {}
      invariant done + left == cm.binaryData.Keys && items == ItemsOf(Part(cm, cm.data.Keys, done))
      decreases left
    {
      var k :| k in left;
      PartGrows(cm, cm.data.Keys, done, k);
      items := items[k := BinaryItem(cm.binaryData[k], cm.resourceVersion)];
      left, done := left - {k}, done + {k};
    }
  }

  function Removed(keys: set<string>, version: string): Items {
    map k | k in keys :: DeletedItem(version)
  }

  lemma RemovedGrows(keys: set<string>, k: string, version: string)
    ensures Removed(keys + {k}, version) == Removed(keys, version)[k := DeletedItem(version)]
    ensures Removed({}, version) == map[]
  {
    hide DeletedItem;
  }

  lemma DeletionFields(keys: set<string>, version: string)
    ensures Removed(keys, version).Keys == keys
    ensures forall k :: k in keys ==> Removed(keys, version)[k] == Item("", version, map["deleted" := "true"])
  {
  }

  method DeletedItems(cm: ConfigMap) returns (items: Items)
    ensures items == Removed(AllKeys(cm), cm.resourceVersion)
    ensures items.Keys == cm.data.Keys + cm.binaryData.Keys
    ensures forall k :: k in items ==> items[k] == Item("", cm.resourceVersion, map["deleted" := "true"])
  {
    DeletionFields(AllKeys(cm), cm.resourceVersion);
    hide Removed, DeletedItem;
    items := map[];
    var left := cm.data.Keys;
    ghost var done: set<string> := {};
    RemovedGrows({}, "", cm.resourceVersion);
    while left != {}
      invariant done + left == cm.data.Keys && items == Removed(done, cm.resourceVersion)
      decreases left
    {
      var k :| k in left;
      RemovedGrows(done, k, cm.resourceVersion);
      items := items[k := DeletedItem(cm.resourceVersion)];
      left, done := left - {k}, done + {k};
    }
    left := cm.binaryData.Keys;
    while left != {}
      invariant done + left == AllKeys(cm) && left <= cm.binaryData.Keys && items == Removed(done, cm.resourceVersion)
      decreases left
    {
      var k :| k in left;
      RemovedGrows(done, k, cm.resourceVersion);
      items := items[k := DeletedItem(cm.resourceVersion)];
      left, done := left - {k}, done + {k};
    }
    assert done == AllKeys(cm);
  }

  /** The subscribed part; no keys means all of them. */
  function Subscribed(items: Items, keys: seq<string>): Items {
    if keys == [] then items else map k | k in items && k in keys :: items[k]
  }

  method FilterByKeys(items: Items, keys: seq<string>) returns (filtered: Items)
    ensures filtered == Subscribed(items, keys)
    ensures forall k :: k in filtered <==> k in items && (keys == [] || k in keys)
    ensures forall k :: k in filtered ==> filtered[k] == items[k]
  {
    if |keys| == 0 {
      return items;
    }
    filtered := map[];
    for i := 0 to |keys|
      invariant filtered == map k | k in items && k in keys[..i] :: items[k]
    {
      if keys[i] in items {
        filtered := filtered[keys[i] := items[keys[i]]];
      }
      assert keys[..i + 1] == keys[..i] + [keys[i]];
    }
    assert keys[..|keys|] == keys;
  }

  // ---------------------------------------------------------------- the difference

  predicate TextChanged(old': ConfigMap, new': ConfigMap, k: string) {
    k in new'.data && (k !in old'.data || old'.data[k] != new'.data[k])
  }

  predicate BinaryChanged(old': ConfigMap, new': ConfigMap, k: string) {
    k in new'.binaryData && (k !in old'.binaryData || old'.binaryData[k] != new'.binaryData[k])
  }

  predicate Gone(old': ConfigMap, new': ConfigMap, k: string) {
    k in AllKeys(old') && k !in AllKeys(new')
  }

  function Changes(old': ConfigMap, new': ConfigMap): Items {
    PartialChanges(old', new', new'.data.Keys, new'.binaryData.Keys, AllKeys(old'))
  }

  /** The changes found once the text keys, the binary keys and the old keys given are dealt with. */
  function PartialChanges(old': ConfigMap, new': ConfigMap, texts: set<string>, bins: set<string>,
                          olds: set<string>): Items {
    map k | k in AllKeys(old') + AllKeys(new')
            && ((k in texts && TextChanged(old', new', k)) || (k in bins && BinaryChanged(old', new', k))
               || (k in olds && Gone(old', new', k))) ::
      if k in olds && Gone(old', new', k) then DeletedItem(new'.resourceVersion)
      else if k in bins && BinaryChanged(old', new', k) then BinaryItem(new'.binaryData[k], new'.resourceVersion)
      else TextItem(new'.data[k], new'.resourceVersion)
  }

  lemma PartialChangesGrow(o: ConfigMap, n: ConfigMap, texts: set<string>, bins: set<string>, olds: set<string>,
                           k: string)
    ensures PartialChanges(o, n, {}, {}, {}) == map[]
    ensures bins == olds == {} ==>
              PartialChanges(o, n, texts + {k}, {}, {}) ==
              if TextChanged(o, n, k)
              then PartialChanges(o, n, texts, {}, {})[k := TextItem(n.data[k], n.resourceVersion)]
              else PartialChanges(o, n, texts, {}, {})
    ensures olds == {} ==>
              PartialChanges(o, n, texts, bins + {k}, {}) ==
              if BinaryChanged(o, n, k)
              then PartialChanges(o, n, texts, bins, {})[k := BinaryItem(n.binaryData[k], n.resourceVersion)]
              else PartialChanges(o, n, texts, bins, {})
    ensures PartialChanges(o, n, texts, bins, olds + {k}) ==
            if Gone(o, n, k) then PartialChanges(o, n, texts, bins, olds)[k := DeletedItem(n.resourceVersion)]
            else PartialChanges(o, n, texts, bins, olds)
  {
    hide TextItem, BinaryItem, DeletedItem;
  }

  /** The changes, field by field. */
  lemma ChangeFields(old': ConfigMap, new': ConfigMap)
    ensures forall k :: k in Changes(old', new') <==>
              || (k in new'.data && !(k in old'.data && old'.data[k] == new'.data[k]))
              || (k in new'.binaryData && !(k in old'.binaryData && old'.binaryData[k] == new'.binaryData[k]))
              || ((k in old'.data || k in old'.binaryData) && k !in new'.data && k !in new'.binaryData)
    ensures forall k :: k in Changes(old', new') ==>
              Changes(old', new')[k] ==
              if k !in new'.data && k !in new'.binaryData then Item("", new'.resourceVersion, map["deleted" := "true"])
              else if k in new'.binaryData && !(k in old'.binaryData && old'.binaryData[k] == new'.binaryData[k])
              then Item(Encode(new'.binaryData[k]), new'.resourceVersion, map["encoding" := "base64"])
              else Item(new'.data[k], new'.resourceVersion, map[])
  {
    hide Encode;
  }

  method ComputeChangedItems(old': ConfigMap, new': ConfigMap) returns (changed: Items)
    ensures changed == Changes(old', new')
    ensures forall k :: k in changed <==>
              || (k in new'.data && !(k in old'.data && old'.data[k] == new'.data[k]))
              || (k in new'.binaryData && !(k in old'.binaryData && old'.binaryData[k] == new'.binaryData[k]))
              || ((k in old'.data || k in old'.binaryData) && k !in new'.data && k !in new'.binaryData)
    ensures forall k :: k in changed ==>
              changed[k] ==
              if k !in new'.data && k !in new'.binaryData then Item("", new'.resourceVersion, map["deleted" := "true"])
              else if k in new'.binaryData && !(k in old'.binaryData && old'.binaryData[k] == new'.binaryData[k])
              then Item(Encode(new'.binaryData[k]), new'.resourceVersion, map["encoding" := "base64"])
              else Item(new'.data[k], new'.resourceVersion, map[])
  {
    ChangeFields(old', new');
    hide Encode, PartialChanges, TextItem, BinaryItem, DeletedItem;
    PartialChangesGrow(old', new', {}, {}, {}, "");
    changed := map[];
    var left := new'.data.Keys;
    ghost var texts, bins, olds: set<string> := {}, {}, {};
    while left != {}
      invariant texts + left == new'.data.Keys && changed == PartialChanges(old', new', texts, {}, {})
      decreases left
    {
      var k :| k in left;
      PartialChangesGrow(old', new', texts, {}, {}, k);
      if k !in old'.data || old'.data[k] != new'.data[k] {
        changed := changed[k := TextItem(new'.data[k], new'.resourceVersion)];
      }
      left, texts := left - {k}, texts + {k};
    }
    left := new'.binaryData.Keys;
    while left != {}
      invariant bins + left == new'.binaryData.Keys && changed == PartialChanges(old', new', texts, bins, {})
      decreases left
    {
      var k :| k in left;
      PartialChangesGrow(old', new', texts, bins, {}, k);
      if k !in old'.binaryData || old'.binaryData[k] != new'.binaryData[k] {
        changed := changed[k := BinaryItem(new'.binaryData[k], new'.resourceVersion)];
      }
      left, bins := left - {k}, bins + {k};
    }
    var allOldKeys := old'.data.Keys + old'.binaryData.Keys;
    left := allOldKeys;
    while left != {}
      invariant olds + left == allOldKeys && changed == PartialChanges(old', new', texts, bins, olds)
      decreases left
    {
      var k :| k in left;
      PartialChangesGrow(old', new', texts, bins, olds, k);
      if k !in new'.data && k !in new'.binaryData {
        changed := changed[k := DeletedItem(new'.resourceVersion)];
      }
      left, olds := left - {k}, olds + {k};
    }
  }

  /** What a subscriber cares about: the value and how it is encoded. */
  datatype Content = Content(value: string, metadata: map<string, string>)

  function ContentOf(items: Items): map<string, Content> {
    map k | k in items :: Content(items[k].value, items[k].metadata)
  }

  predicate Differs(a: map<string, Content>, b: map<string, Content>, k: string) {
    (k in a && k in b && a[k] != b[k]) || (k in a) != (k in b)
  }

  /** A difference reports exactly the keys whose value or encoding differs, each with what it is
      now, or as deleted. */
  lemma ChangesExact(old': ConfigMap, new': ConfigMap, k: string)
    requires Disjoint(old') && Disjoint(new')
    ensures k in Changes(old', new') <==> Differs(ContentOf(ItemsOf(old')), ContentOf(ItemsOf(new')), k)
    ensures k in Changes(old', new') ==>
              if k in ItemsOf(new') then Changes(old', new')[k] == ItemsOf(new')[k]
              else Changes(old', new')[k] == DeletedItem(new'.resourceVersion)
  {
    if k in old'.binaryData && k in new'.binaryData {
      EncodeInjective(old'.binaryData[k], new'.binaryData[k]);
    }
    assert "encoding" in BINARY && "encoding" !in TEXT;
  }

  /** Why the sections must be disjoint: a key kept in both whose text changes is reported as text,
      while the full view shows it as binary. */
  lemma OverlapDiverges(k: string, a: string, b: string, bytes: seq<Byte>, v: string, w: string)
    requires a != b
    ensures var old' := ConfigMap(map[k := a], map[k := bytes], v);
            var new' := ConfigMap(map[k := b], map[k := bytes], w);
            k in Changes(old', new') && Changes(old', new')[k].metadata == TEXT && ItemsOf(new')[k].metadata == BINARY
  {
    assert TextChanged(ConfigMap(map[k := a], map[k := bytes], v), ConfigMap(map[k := b], map[k := bytes], w), k);
  }

  // ---------------------------------------------------------------- events

  /** What an informer hands over: an object, or a marker holding the last known one. */
  datatype Object = Known(cm: ConfigMap) | FinalStateUnknown(last: Option<ConfigMap>) | Foreign

  function ExtractConfigMap(obj: Object): Option<ConfigMap> {
    match obj
    case Known(cm) => Some(cm)
    case FinalStateUnknown(last) => last
    case Foreign => None
  }

  datatype Event = Added(obj: Object) | Updated(oldObj: Object, newObj: Object) | Deleted(obj: Object)

  /** The items delivered for an event; nothing is sent when there are none. */
  function Delivered(e: Event, keys: seq<string>): Items {
    match e
    case Added(obj) =>
      var cm := ExtractConfigMap(obj);
      if cm.None? then map[] else Subscribed(ItemsOf(cm.value), keys)
    case Updated(oldObj, newObj) =>
      var o, n := ExtractConfigMap(oldObj), ExtractConfigMap(newObj);
      if o.None? || n.None? || o.value.resourceVersion == n.value.resourceVersion then map[]
      else Subscribed(Changes(o.value, n.value), keys)
    case Deleted(obj) =>
      var cm := ExtractConfigMap(obj);
      if cm.None? then map[] else Subscribed(Removed(AllKeys(cm.value), cm.value.resourceVersion), keys)
  }

  /** What is delivered, key by key, for an object that is known or was last known to be `cm`. */
  lemma DeliveredKeys(obj: Object, cm: ConfigMap, keys: seq<string>, k: string)
    requires obj == Known(cm) || obj == FinalStateUnknown(Some(cm))
    ensures var wanted := (k in cm.data || k in cm.binaryData) && (keys == [] || k in keys);
            var added, deleted := Delivered(Added(obj), keys), Delivered(Deleted(obj), keys);
            && (k in added <==> wanted)
            && (k in added ==> k in ItemsOf(cm) && added[k] == ItemsOf(cm)[k])
            && (k in deleted <==> wanted)
            && (k in deleted ==> deleted[k] == Item("", cm.resourceVersion, map["deleted" := "true"]))
  {
    hide ItemsOf;
    ViewFields(cm);
    DeletionFields(AllKeys(cm), cm.resourceVersion);
  }

  lemma UpdateDelivers(o: ConfigMap, n: ConfigMap, keys: seq<string>, k: string)
    ensures var updated := Delivered(Updated(Known(o), Known(n)), keys);
            && (k in updated <==>
                  o.resourceVersion != n.resourceVersion && k in Changes(o, n) && (keys == [] || k in keys))
            && (k in updated ==> updated[k] == Changes(o, n)[k])
  {
    hide Changes;
  }

  /** Nothing is delivered of objects that are no ConfigMaps. */
  lemma ForeignDelivers(obj: Object, other: Object, keys: seq<string>)
    requires obj == Foreign || obj == FinalStateUnknown(None)
    ensures Delivered(Added(obj), keys) == Delivered(Deleted(obj), keys) == map[]
    ensures Delivered(Updated(obj, other), keys) == Delivered(Updated(other, obj), keys) == map[]
  {
  }

  /** One subscriber: what it asked for, whether its context is live, and the events it was sent. */
  class SubscriberHandler {
    const keys: seq<string>
    var live: bool
    var sent: seq<Items>

    constructor (keys: seq<string>)
      ensures this.keys == keys && live && sent == []
    {
      this.keys := keys;
      live := true;
      sent := [];
    }

    method Send(items: Items)
      modifies this`sent
      ensures sent == if live then old(sent) + [items] else old(sent)
    {
      if live {
        sent := sent + [items];
      }
    }

    method OnAdd(obj: Object)
      modifies this`sent
      ensures sent == old(sent) +
              if live && Delivered(Added(obj), keys) != map[] then [Delivered(Added(obj), keys)] else []
    {
      var cm := ExtractConfigMap(obj);
      if cm.None? {
        return;
      }
      var all := ConfigMapToItems(cm.value);
      var items := FilterByKeys(all, keys);
      if items == map[] {
        return;
      }
      Send(items);
    }

    method OnUpdate(oldObj: Object, newObj: Object)
      modifies this`sent
      ensures sent == old(sent) + if live && Delivered(Updated(oldObj, newObj), keys) != map[]
                                  then [Delivered(Updated(oldObj, newObj), keys)] else []
    {
      var oldCM, newCM := ExtractConfigMap(oldObj), ExtractConfigMap(newObj);
      if oldCM.None? || newCM.None? {
        return;
      }
      if oldCM.value.resourceVersion == newCM.value.resourceVersion {
        return;
      }
      var changed := ComputeChangedItems(oldCM.value, newCM.value);
      var items := FilterByKeys(changed, keys);
      if items == map[] {
        return;
      }
      Send(items);
    }

    method OnDelete(obj: Object)
      modifies this`sent
      ensures sent == old(sent) +
              if live && Delivered(Deleted(obj), keys) != map[] then [Delivered(Deleted(obj), keys)] else []
    {
      var cm := ExtractConfigMap(obj);
      if cm.None? {
        return;
      }
      var removed := DeletedItems(cm.value);
      var items := FilterByKeys(removed, keys);
      if items == map[] {
        return;
      }
      Send(items);
    }
  }

  // ---------------------------------------------------------------- folding the feed

  function IsDeletion(item: Item): bool {
    item.metadata == DELETED
  }

  /** A subscriber's own view after an event. */
  function Fold(view: map<string, Content>, items: Items): map<string, Content> {
    map k | k in view.Keys + items.Keys && !(k in items && IsDeletion(items[k])) ::
      if k in items then Content(items[k].value, items[k].metadata) else view[k]
  }

  /** The informer's account of the ConfigMap: events follow its life, an equal version means equal
      content, and a marker holds the last known state. */
  ghost predicate Follows(current: Option<ConfigMap>, e: Event, next: Option<ConfigMap>) {
    match e
    case Added(obj) => current.None? && obj.Known? && next == Some(obj.cm) && Disjoint(obj.cm)
    case Updated(oldObj, newObj) =>
      && oldObj.Known? && newObj.Known? && current == Some(oldObj.cm) && next == Some(newObj.cm) && Disjoint(newObj.cm)
      && (oldObj.cm.resourceVersion == newObj.cm.resourceVersion ==> oldObj.cm == newObj.cm)
    case Deleted(obj) => current.Some? && ExtractConfigMap(obj) == current && next.None?
  }

  /** The subscriber's part of the current full view. */
  function Target(current: Option<ConfigMap>, keys: seq<string>): map<string, Content> {
    if current.None? then map[] else ContentOf(Subscribed(ItemsOf(current.value), keys))
  }

  /** One event: a view that was right stays right. An event that is not sent changes nothing. */
  lemma EventKeepsView(current: Option<ConfigMap>, e: Event, next: Option<ConfigMap>, keys: seq<string>)
    requires Follows(current, e, next) && (current.Some? ==> Disjoint(current.value))
    ensures Fold(Target(current, keys), Delivered(e, keys)) == Target(next, keys)
  {
    match e
    case Added(obj) => AddKeepsView(obj.cm, keys);
    case Updated(oldObj, newObj) =>
      if oldObj.cm.resourceVersion != newObj.cm.resourceVersion {
        UpdateKeepsView(oldObj.cm, newObj.cm, keys);
      }
    case Deleted(obj) => DeleteKeepsView(current.value, keys);
  }

  lemma AddKeepsView(cm: ConfigMap, keys: seq<string>)
    ensures Fold(map[], Subscribed(ItemsOf(cm), keys)) == ContentOf(Subscribed(ItemsOf(cm), keys))
  {
    NoDeletions(cm);
    hide ItemsOf, IsDeletion;
  }

  lemma DeleteKeepsView(cm: ConfigMap, keys: seq<string>)
    ensures Fold(ContentOf(Subscribed(ItemsOf(cm), keys)),
                 Subscribed(Removed(AllKeys(cm), cm.resourceVersion), keys)) == map[]
  {
    hide IsDeletion, DeletedItem, TextItem, BinaryItem;
    DeletionMarked(cm.resourceVersion);
  }

  lemma UpdateKeepsView(o: ConfigMap, n: ConfigMap, keys: seq<string>)
    requires Disjoint(o) && Disjoint(n)
    ensures Fold(ContentOf(Subscribed(ItemsOf(o), keys)), Subscribed(Changes(o, n), keys)) ==
            ContentOf(Subscribed(ItemsOf(n), keys))
  {
    hide Changes, ItemsOf, Subscribed, ContentOf, Fold;
    var before, after := ContentOf(Subscribed(ItemsOf(o), keys)), ContentOf(Subscribed(ItemsOf(n), keys));
    var delivered := Subscribed(Changes(o, n), keys);
    var folded := Fold(before, delivered);
    forall k
      ensures k in folded <==> k in after
      ensures k in folded ==> folded[k] == after[k]
    {
      UpdateKeepsKey(o, n, keys, k);
    }
  }

  lemma UpdateKeepsKey(o: ConfigMap, n: ConfigMap, keys: seq<string>, k: string)
    requires Disjoint(o) && Disjoint(n)
    ensures var folded := Fold(ContentOf(Subscribed(ItemsOf(o), keys)), Subscribed(Changes(o, n), keys));
            var after := ContentOf(Subscribed(ItemsOf(n), keys));
            (k in folded <==> k in after) && (k in folded ==> folded[k] == after[k])
  {
    hide Changes, ItemsOf, IsDeletion, DeletedItem;
    ChangesExact(o, n, k);
    NoDeletions(n);
    DeletionMarked(n.resourceVersion);
  }

  lemma DeletionMarked(version: string)
    ensures IsDeletion(DeletedItem(version))
  {
  }

  lemma NoDeletions(cm: ConfigMap)
    ensures forall k :: k in ItemsOf(cm) ==> !IsDeletion(ItemsOf(cm)[k])
  {
    assert "deleted" in DELETED && "deleted" !in BINARY && "deleted" !in TEXT;
  }

  /** The ConfigMap after each event, and the view after folding all that was sent. */
  ghost predicate Life(current: Option<ConfigMap>, events: seq<Event>, states: seq<Option<ConfigMap>>)
    decreases |events|
  {
    && |states| == |events|
    && (events != [] ==> Follows(current, events[0], states[0]) && Life(states[0], events[1..], states[1..]))
  }

  /** What a live subscriber is sent over a run of events, event by event as SubscriberHandler does. */
  function Feed(events: seq<Event>, keys: seq<string>): seq<Items> {
    if events == [] then []
    else (if Delivered(events[0], keys) == map[] then [] else [Delivered(events[0], keys)]) + Feed(events[1..], keys)
  }

  function FoldFeed(view: map<string, Content>, feed: seq<Items>): map<string, Content>
    decreases |feed|
  {
    if feed == [] then view else FoldFeed(Fold(view, feed[0]), feed[1..])
  }

  /** An event that is not sent does not matter to the fold. */
  lemma UnsentIsNeutral(view: map<string, Content>)
    ensures Fold(view, map[]) == view
  {
  }

  /** The main result: over any life of the ConfigMap, folding everything that was sent gives the
      subscribed part of the current full view. */
  lemma {:induction false} FeedIsFaithful(current: Option<ConfigMap>, events: seq<Event>,
                                          states: seq<Option<ConfigMap>>, keys: seq<string>)
    requires Life(current, events, states) && (current.Some? ==> Disjoint(current.value))
    ensures FoldFeed(Target(current, keys), Feed(events, keys)) ==
            Target(if events == [] then current else states[|states| - 1], keys)
    decreases |events|
  {
    hide Fold, Target, Delivered;
    if events != [] {
      EventKeepsView(current, events[0], states[0], keys);
      FeedIsFaithful(states[0], events[1..], states[1..], keys);
      var rest := Feed(events[1..], keys);
      if Delivered(events[0], keys) == map[] {
        UnsentIsNeutral(Target(current, keys));
        assert [] + rest == rest;
      } else {
        assert ([Delivered(events[0], keys)] + rest)[1..] == rest;
      }
    }
  }
}
