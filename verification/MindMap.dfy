/**
 The graduation guard of mind maps: which owner-written nodes the agent has not read yet.
 A pair of timestamps on the map stands in front of a scan of its nodes.
 */
module MindMap {
  import opened Wrappers

  type NodeId = int
  type TenantId = int

  datatype Author = Owner | Model | Unknown

  datatype MapRow = MapRow(lastOwnerWrite: Option<int>, lastAgentRead: Option<int>)

  datatype Member = Member(root: NodeId, author: Author, addedAt: int)

  datatype Memory = Memory(tenant: TenantId, deleted: bool)

  datatype Tables = Tables(maps: map<NodeId, MapRow>, members: map<NodeId, Member>, memories: map<NodeId, Memory>)

  /** A live node of the map that the owner wrote. */
  predicate OwnerNode(db: Tables, root: NodeId, tenant: TenantId, m: NodeId) {
    && m in db.members && db.members[m].root == root && db.members[m].author == Owner
    && m in db.memories && db.memories[m].tenant == tenant && !db.memories[m].deleted
  }

  predicate NewerThan(at: int, since: Option<int>) {
    since.None? || at > since.value
  }

  /** The plain scan: owner nodes added after a point in time, or all of them. */
  function AddedSince(db: Tables, root: NodeId, tenant: TenantId, since: Option<int>): set<NodeId> {
    set m | m in db.members && OwnerNode(db, root, tenant, m) && NewerThan(db.members[m].addedAt, since)
  }

  /** The guard, with its two early exits. */
  function Unacknowledged(db: Tables, root: NodeId, tenant: TenantId): set<NodeId> {
    if root !in db.maps || db.maps[root].lastOwnerWrite.None? then {}
    else
      var row := db.maps[root];
      if row.lastAgentRead.Some? && row.lastOwnerWrite.value <= row.lastAgentRead.value then {}
      else AddedSince(db, root, tenant, row.lastAgentRead)
  }

  /** The insert violates the primary key or a foreign key. */
  predicate Rejected(db: Tables, m: NodeId, root: NodeId) {
    m in db.members || root !in db.maps || m !in db.memories
  }

  class MapStore {
    var maps: map<NodeId, MapRow>
    var members: map<NodeId, Member>
    var memories: map<NodeId, Memory>

    ghost function View(): Tables
      reads this
    {
      Tables(maps, members, memories)
    }

    constructor ()
      ensures View() == Tables(map[], map[], map[])
    {
      maps, members, memories := map[], map[], map[];
    }

    method InsertMembership(m: NodeId, root: NodeId, author: Author, now: int) returns (ok: bool)
      modifies this`members
      ensures ok == !Rejected(old(View()), m, root)
      ensures ok <==> m !in old(members) && root in maps && m in memories
      ensures members == if ok then old(members)[m := Member(root, author, now)] else old(members)
    {
      if m in members || root !in maps || m !in memories {
        return false;
      }
      members := members[m := Member(root, author, now)];
      return true;
    }

    method TouchOwnerWrite(root: NodeId, now: int)
      modifies this`maps
      ensures maps == if root in old(maps) then old(maps)[root := old(maps)[root].(lastOwnerWrite := Some(now))]
                      else old(maps)
    {
      if root in maps {
        maps := maps[root := maps[root].(lastOwnerWrite := Some(now))];
      }
    }

    method TouchAgentRead(root: NodeId, now: int)
      modifies this`maps
      ensures View() == Read(old(View()), root, now)
      ensures members == old(members) && memories == old(memories)
      ensures maps == if root in old(maps) then old(maps)[root := old(maps)[root].(lastAgentRead := Some(now))]
                      else old(maps)
    {
      if root in maps {
        maps := maps[root := maps[root].(lastAgentRead := Some(now))];
      }
    }

    /** The write-node transaction: a rejected insert leaves everything as it was. */
    method WriteNode(m: NodeId, root: NodeId, author: Author, now: int) returns (ok: bool)
      modifies this
      ensures ok == !Rejected(old(View()), m, root)
      ensures View() == Written(old(View()), m, root, author, now)
      ensures ok <==> m !in old(members) && root in old(maps) && m in memories
      ensures !ok ==> View() == old(View())
      ensures ok ==> members == old(members)[m := Member(root, author, now)] && memories == old(memories)
      ensures ok && author == Owner ==> maps == old(maps)[root := MapRow(Some(now), old(maps)[root].lastAgentRead)]
      ensures ok && author != Owner ==> maps == old(maps)
    {
      ok := InsertMembership(m, root, author, now);
      if ok && author == Owner {
        TouchOwnerWrite(root, now);
      }
    }

    method UnacknowledgedOwnerInput(root: NodeId, tenant: TenantId) returns (nodes: set<NodeId>)
      ensures nodes == Unacknowledged(View(), root, tenant)
      ensures forall m :: m in nodes
                     <==> && root in maps && maps[root].lastOwnerWrite.Some?
                          && NewerThan(maps[root].lastOwnerWrite.value, maps[root].lastAgentRead)
                          && m in members && members[m].root == root && members[m].author == Owner
                          && m in memories && memories[m].tenant == tenant && !memories[m].deleted
                          && NewerThan(members[m].addedAt, maps[root].lastAgentRead)
    {
      if root !in maps || maps[root].lastOwnerWrite.None? {
        return {};
      }
      var lastRead := maps[root].lastAgentRead;
      if lastRead.Some? && maps[root].lastOwnerWrite.value <= lastRead.value {
        return {};
      }
      return set m | m in members && OwnerNode(Tables(maps, members, memories), root, tenant, m)
                     && NewerThan(members[m].addedAt, lastRead);
    }
  }

  // ---------------------------------------------------------------------------
  // Transactions as functions on the tables
  // ---------------------------------------------------------------------------

  function Written(db: Tables, m: NodeId, root: NodeId, author: Author, stamp: int): Tables {
    if Rejected(db, m, root) then db
    else
      db.(members := db.members[m := Member(root, author, stamp)],
          maps := if author == Owner then db.maps[root := db.maps[root].(lastOwnerWrite := Some(stamp))] else db.maps)
  }

  function Read(db: Tables, root: NodeId, stamp: int): Tables {
    if root in db.maps then db.(maps := db.maps[root := db.maps[root].(lastAgentRead := Some(stamp))]) else db
  }

  /**
   The tables, the clock, and the order in which transactions committed: `step` numbers them,
   `addedIn` and `readIn` hold the number of each node's insert and each map's last read.
   */
  datatype System = System(db: Tables, now: int, step: nat, addedIn: map<NodeId, nat>, readIn: map<NodeId, nat>)

  datatype Event =
    | NewMemory(m: NodeId, tenant: TenantId)
    | OpenMap(root: NodeId)
    | WriteNode(m: NodeId, root: NodeId, author: Author, stamp: int)
    | AgentRead(root: NodeId, stamp: int)
    | SetDeleted(m: NodeId, deleted: bool)
    | Tick(to: int)

  /** A transaction's stamp is the time at which it began. */
  ghost predicate Enabled(s: System, e: Event) {
    match e
    case NewMemory(m, _) => m !in s.db.memories
    case OpenMap(root) => root !in s.db.maps && root !in s.db.members && root in s.db.memories
    case WriteNode(_, _, _, stamp) => stamp <= s.now
    case AgentRead(_, stamp) => stamp <= s.now
    case SetDeleted(m, _) => m in s.db.memories
    case Tick(to) => s.now <= to
  }

  /** The transaction runs at one instant: it commits at its own stamp. */
  ghost predicate Atomic(s: System, e: Event) {
    (e.WriteNode? || e.AgentRead? ==> e.stamp == s.now)
  }

  ghost function Apply(s: System, e: Event): System
    requires Enabled(s, e)
  {
    var n := s.(step := s.step + 1);
    match e
    case NewMemory(m, t) => n.(db := s.db.(memories := s.db.memories[m := Memory(t, false)]))
    case OpenMap(root) =>
      n.(db := s.db.(maps := s.db.maps[root := MapRow(None, None)],
                     members := s.db.members[root := Member(root, Unknown, s.now)]),
         addedIn := s.addedIn[root := s.step])
    case WriteNode(m, root, author, stamp) =>
      if Rejected(s.db, m, root) then n
      else n.(db := Written(s.db, m, root, author, stamp), addedIn := s.addedIn[m := s.step])
    case AgentRead(root, stamp) =>
      if root !in s.db.maps then n
      else n.(db := Read(s.db, root, stamp), readIn := s.readIn[root := s.step])
    case SetDeleted(m, d) => n.(db := s.db.(memories := s.db.memories[m := s.db.memories[m].(deleted := d)]))
    case Tick(to) => n.(now := to)
  }

  // ---------------------------------------------------------------------------
  // When the early exits are harmless
  // ---------------------------------------------------------------------------

  /** The map's owner stamp is at least as new as every live owner node. */
  ghost predicate StampCurrent(db: Tables, root: NodeId, tenant: TenantId) {
    forall m :: OwnerNode(db, root, tenant, m) ==>
      root in db.maps && db.maps[root].lastOwnerWrite.Some?
      && db.members[m].addedAt <= db.maps[root].lastOwnerWrite.value
  }

  ghost function WithRead(db: Tables, root: NodeId, since: Option<int>): Tables
    requires root in db.maps
  {
    db.(maps := db.maps[root := db.maps[root].(lastAgentRead := since)])
  }

  lemma {:induction false} WithReadKeepsNodes(db: Tables, root: NodeId, tenant: TenantId, since: Option<int>)
    requires root in db.maps
    ensures AddedSince(WithRead(db, root, since), root, tenant, since) == AddedSince(db, root, tenant, since)
  {
    assert forall m :: OwnerNode(WithRead(db, root, since), root, tenant, m) <==> OwnerNode(db, root, tenant, m);
  }

  lemma {:induction false} CurrentStampIsExact(db: Tables, root: NodeId, tenant: TenantId)
    requires root in db.maps && StampCurrent(db, root, tenant)
    ensures Unacknowledged(db, root, tenant) == AddedSince(db, root, tenant, db.maps[root].lastAgentRead)
  {
    var row := db.maps[root];
    forall m | m in AddedSince(db, root, tenant, row.lastAgentRead)
      ensures m in Unacknowledged(db, root, tenant)
    {
      assert OwnerNode(db, root, tenant, m);
    }
  }

  /**
   The timestamp shortcut agrees with the plain scan whenever the agent may have read last,
   exactly if the map's owner stamp is current.
   */
  lemma {:induction false} ShortcutIsExact(db: Tables, root: NodeId, tenant: TenantId)
    requires root in db.maps
    ensures StampCurrent(db, root, tenant)
       <==> forall since ::
              Unacknowledged(WithRead(db, root, since), root, tenant) == AddedSince(db, root, tenant, since)
  {
    if StampCurrent(db, root, tenant) {
      forall since
        ensures Unacknowledged(WithRead(db, root, since), root, tenant) == AddedSince(db, root, tenant, since)
      {
        var db' := WithRead(db, root, since);
        forall m | OwnerNode(db', root, tenant, m)
          ensures db'.maps[root].lastOwnerWrite.Some?
                  && db'.members[m].addedAt <= db'.maps[root].lastOwnerWrite.value
        {
          assert OwnerNode(db, root, tenant, m);
        }
        CurrentStampIsExact(db', root, tenant);
        WithReadKeepsNodes(db, root, tenant, since);
      }
    } else {
      var m :| OwnerNode(db, root, tenant, m)
               && (db.maps[root].lastOwnerWrite.None?
                   || db.members[m].addedAt > db.maps[root].lastOwnerWrite.value);
      var since := db.maps[root].lastOwnerWrite;
      assert m in AddedSince(db, root, tenant, since);
      assert Unacknowledged(WithRead(db, root, since), root, tenant) == {};
    }
  }
}
