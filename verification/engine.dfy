/**
 * The rod engine (src/engine.rs): `get` resolves a key through the
 * name-to-id table and then the id-to-node table; `put` writes the mapping,
 * then the node. The store is in memory here; the outcome of each backend
 * I/O call is a parameter (`Option.None` when it succeeds).
 */
module Engine {
  import opened Wrappers
  import opened Graph

  /** `StoreError`. */
  datatype StoreError =
    | ReadBinaryAsString
    | ReadStringAsBinary
    | UnrecognizedData
    | Other(cause: string)

  /**
   * The two persistent tables behind the engine. A key may be unmapped, mapped
   * to no id, or mapped to an id.
   */
  class Store {
    var ids: map<string, Option<Ulid>>
    var nodes: map<Ulid, Node>

    /** Every node is stored under its own id. */
    ghost predicate Valid()
      reads this
    {
      forall id :: id in nodes ==> nodes[id].id == id
    }

    constructor ()
      ensures Valid() && ids == map[] && nodes == map[]
    {
      ids := map[];
      nodes := map[];
    }

    /** `get_id`: the outer option says whether the key was ever recorded. */
    method GetId(key: string, io: Option<StoreError>) returns (r: Result<Option<Option<Ulid>>, StoreError>)
      ensures io.Some? ==> r == Err(io.value)
      ensures io.None? ==> r == Ok(if key in ids then Some(ids[key]) else Option.None)
    {
      if io.Some? {
        return Err(io.value);
      }
      r := Ok(if key in ids then Some(ids[key]) else Option.None);
    }

    /** `get_node`. */
    method GetNode(id: Ulid, io: Option<StoreError>) returns (r: Result<Option<Node>, StoreError>)
      requires Valid()
      ensures io.Some? ==> r == Err(io.value)
      ensures io.None? ==> r == Ok(if id in nodes then Some(nodes[id]) else Option.None)
      ensures r.Ok? && r.value.Some? ==> r.value.value.id == id
    {
      if io.Some? {
        return Err(io.value);
      }
      r := Ok(if id in nodes then Some(nodes[id]) else Option.None);
    }

    /** `set_id`: overwrites any previous mapping of the key. */
    method SetId(key: string, id: Option<Ulid>, io: Option<StoreError>) returns (r: Result<(), StoreError>)
      requires Valid()
      modifies this
      ensures Valid() && nodes == old(nodes)
      ensures io.Some? ==> r == Err(io.value) && ids == old(ids)
      ensures io.None? ==> r == Ok(()) && ids == old(ids)[key := id]
    {
      if io.Some? {
        return Err(io.value);
      }
      ids := ids[key := id];
      r := Ok(());
    }

    /** `put_node`: stores the node under its id, replacing whatever was there. */
    method PutNode(node: Node, io: Option<StoreError>) returns (r: Result<(), StoreError>)
      requires Valid()
      modifies this
      ensures Valid() && ids == old(ids)
      ensures io.Some? ==> r == Err(io.value) && nodes == old(nodes)
      ensures io.None? ==> r == Ok(()) && nodes == old(nodes)[node.id := node]
    {
      if io.Some? {
        return Err(io.value);
      }
      nodes := nodes[node.id := node];
      r := Ok(());
    }
  }

  /** What `get` finds for a key in a pair of tables, when no I/O fails. */
  function Lookup(ids: map<string, Option<Ulid>>, nodes: map<Ulid, Node>, key: string): Option<Node> {
    if key in ids && ids[key].Some? && ids[key].value in nodes then Some(nodes[ids[key].value])
    else Option.None
  }

  /** `put` then `get` of the same key finds the node that was put. */
  lemma PutThenGet(ids: map<string, Option<Ulid>>, nodes: map<Ulid, Node>, key: string, n: Node)
    ensures Lookup(ids[key := Some(n.id)], nodes[n.id := n], key) == Some(n)
  {
  }

  /**
   * `put` leaves every other key's mapping alone; such a key sees the new
   * node exactly when it was already mapped to the same id.
   */
  lemma PutLeavesOtherKeys(ids: map<string, Option<Ulid>>, nodes: map<Ulid, Node>, key: string, n: Node, other: string)
    requires other != key
    ensures (other in ids[key := Some(n.id)]) == (other in ids)
    ensures other in ids ==> ids[key := Some(n.id)][other] == ids[other]
    ensures Lookup(ids[key := Some(n.id)], nodes[n.id := n], other) ==
      if other in ids && ids[other] == Some(n.id) then Some(n) else Lookup(ids, nodes, other)
  {
  }

  /** In a valid store, whatever `get` finds carries the id the key maps to. */
  lemma LookupFindsMappedId(ids: map<string, Option<Ulid>>, nodes: map<Ulid, Node>, key: string)
    requires forall id :: id in nodes ==> nodes[id].id == id
    ensures Lookup(ids, nodes, key).Some? ==> key in ids && ids[key] == Some(Lookup(ids, nodes, key).value.id)
  {
  }

  /** `Rod`: the public engine over one store. */
  class Rod {
    const store: Store

    constructor (store: Store)
      ensures this.store == store
    {
      this.store := store;
    }

    /**
     * `Rod::get`: `None` when the key is unmapped or mapped to no id, or when
     * no node is stored under its id; store errors are passed on unchanged.
     */
    method Get(key: string, idIo: Option<StoreError>, nodeIo: Option<StoreError>)
      returns (r: Result<Option<Node>, StoreError>)
      requires store.Valid()
      ensures idIo.Some? ==> r == Err(idIo.value)
      ensures idIo.None? && (key !in store.ids || store.ids[key].None?) ==> r == Ok(Option.None)
      ensures idIo.None? && key in store.ids && store.ids[key].Some? && nodeIo.Some? ==> r == Err(nodeIo.value)
      ensures idIo.None? && nodeIo.None? ==> r == Ok(Lookup(store.ids, store.nodes, key))
      ensures r.Ok? && r.value.Some? ==> key in store.ids && store.ids[key] == Some(r.value.value.id)
    {
      var mapping := store.GetId(key, idIo);
      if mapping.Err? {
        return Err(mapping.error);
      }
      // `Option::flatten`: unmapped and mapped-to-nothing look the same here.
      if mapping.value.None? || mapping.value.value.None? {
        return Ok(Option.None);
      }
      var id := mapping.value.value.value;
      var found := store.GetNode(id, nodeIo);
      if found.Err? {
        return Err(found.error);
      }
      r := Ok(found.value);
    }

    /**
     * `Rod::put`: maps the key to the node's id, then stores the node as it
     * is, with no merge. A failing `set_id` writes nothing; a failing
     * `put_node` leaves the new mapping in place.
     */
    method Put(key: string, node: Node, setIo: Option<StoreError>, putIo: Option<StoreError>)
      returns (r: Result<(), StoreError>)
      requires store.Valid()
      modifies store
      ensures store.Valid()
      ensures setIo.Some? ==> r == Err(setIo.value) && store.ids == old(store.ids) && store.nodes == old(store.nodes)
      ensures setIo.None? ==> store.ids == old(store.ids)[key := Some(node.id)]
      ensures setIo.None? && putIo.Some? ==> r == Err(putIo.value) && store.nodes == old(store.nodes)
      ensures setIo.None? && putIo.None? ==> r == Ok(()) && store.nodes == old(store.nodes)[node.id := node]
    {
      var mapped := store.SetId(key, Some(node.id), setIo);
      if mapped.Err? {
        return Err(mapped.error);
      }
      var stored := store.PutNode(node, putIo);
      if stored.Err? {
        return Err(stored.error);
      }
      r := Ok(());
    }
  }
}
