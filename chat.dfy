/** The in-memory chat store of the models package: a primary map from chat ID
    to chat and a secondary index from room ID to that room's chats in
    insertion order. Each method is one atomic step (the read-write mutex is
    not modelled). */
module Chats {
  import opened Wrappers

  /** A chat message. `createdAt` is an opaque timestamp. */
  datatype Chat = Chat(id: string, roomId: string, username: string, message: string, createdAt: int)

  /** The ids of the chats in `list`. */
  function IdsOf(list: seq<Chat>): set<string>
  {
    set c | c in list :: c.id
  }

  predicate DistinctIds(list: seq<Chat>)
  {
    forall i, j :: 0 <= i < j < |list| ==> list[i].id != list[j].id
  }

  /** The index of the first entry carrying `id`, or `|list|` when there is
      none: where the search loop of `DeleteChat` stops. */
  function FirstIndexOf(list: seq<Chat>, id: string): (i: nat)
    ensures i <= |list|
    ensures forall k :: 0 <= k < i ==> list[k].id != id
    ensures i < |list| ==> list[i].id == id
  {
    if list == [] then 0
    else if list[0].id == id then 0
    else 1 + FirstIndexOf(list[1..], id)
  }

  /** `list` with its first entry carrying `id` spliced out: a reference
      definition, by recursion, of what `DeleteChat` does to a room's list. */
  function RemoveFirst(list: seq<Chat>, id: string): seq<Chat>
  {
    if list == [] then []
    else if list[0].id == id then list[1..]
    else [list[0]] + RemoveFirst(list[1..], id)
  }

  /** When the first entry with `id` is at index `i`, removing it is the splice
      `list[..i] + list[i + 1..]`: the rest keep their order. */
  lemma {:induction false} RemoveFirstSplices(list: seq<Chat>, id: string, i: nat)
    requires i < |list| && list[i].id == id
    requires forall k :: 0 <= k < i ==> list[k].id != id
    ensures RemoveFirst(list, id) == list[..i] + list[i + 1..]
    decreases |list|
  {
    if i == 0 {
      assert list[..0] + list[1..] == list[1..];
    } else {
      var tail := list[1..];
      assert list[0].id != id;
      assert RemoveFirst(list, id) == [list[0]] + RemoveFirst(tail, id);
      assert forall k :: 0 <= k < i - 1 ==> tail[k] == list[k + 1];
      assert tail[i - 1] == list[i];
      RemoveFirstSplices(tail, id, i - 1);
      assert list[..i] == [list[0]] + tail[..i - 1];
      assert list[i + 1..] == tail[i..];
    }
  }

  /** When no entry carries `id`, removing it changes nothing. */
  lemma {:induction false} RemoveFirstAbsent(list: seq<Chat>, id: string)
    requires forall k :: 0 <= k < |list| ==> list[k].id != id
    ensures RemoveFirst(list, id) == list
    decreases |list|
  {
    if list != [] {
      assert forall k :: 0 <= k < |list[1..]| ==> list[1..][k] == list[k + 1];
      RemoveFirstAbsent(list[1..], id);
      assert list == [list[0]] + list[1..];
    }
  }

  /** The contents of a chat store, as a value: the primary map and the room index. */
  datatype Store = Store(chats: map<string, Chat>, byRoom: map<string, seq<Chat>>)
  {
    /** Lookup by ID: Go's `chat, exists := s.chats[id]`. */
    function GetChat(id: string): Option<Chat>
    {
      if id in chats then Some(chats[id]) else None
    }

    /** A copy of the room's index entries; an unknown room reads as the empty list
        (`make([]*Chat, 0)`, not the nil read of the map). */
    function GetChatsByRoom(roomId: string): seq<Chat>
    {
      if roomId in byRoom then byRoom[roomId] else []
    }

    /** `AddChat`: store under the chat's ID (overwriting) and append to its room's list. */
    function Add(c: Chat): Store
    {
      Store(chats[c.id := c], byRoom[c.roomId := GetChatsByRoom(c.roomId) + [c]])
    }

    /** `DeleteChat`'s new state: drop the ID, and splice the first entry with
        that ID out of the stored chat's room list, when there is one. */
    function Delete(id: string): Store
    {
      if id !in chats then this
      else
        var room := chats[id].roomId;
        var list := GetChatsByRoom(room);
        var i := FirstIndexOf(list, id);
        Store(chats - {id}, if i < |list| then byRoom[room := list[..i] + list[i + 1..]] else byRoom)
    }

    /** `DeleteChatsByRoom`'s new state: drop every ID listed for the room, then the room's list. */
    function DeleteRoom(roomId: string): Store
    {
      Store(chats - IdsOf(GetChatsByRoom(roomId)), byRoom - {roomId})
    }

    /** Every chat is stored under its own ID (`chats[chat.ID] = chat`). */
    ghost predicate Keyed()
    {
      forall id :: id in chats ==> chats[id].id == id
    }

    /** Every index entry of room `r` belongs to `r` and is the chat stored under its ID. */
    ghost predicate IndexStored()
    {
      forall r, i :: r in byRoom && 0 <= i < |byRoom[r]| ==>
        byRoom[r][i].roomId == r && byRoom[r][i].id in chats && chats[byRoom[r][i].id] == byRoom[r][i]
    }

    /** No room lists an ID twice. */
    ghost predicate IndexDistinct()
    {
      forall r :: r in byRoom ==> DistinctIds(byRoom[r])
    }

    /** Every stored chat is listed under its room. */
    ghost predicate Covered()
    {
      forall id :: id in chats ==> chats[id] in GetChatsByRoom(chats[id].roomId)
    }

    /** The two structures agree. */
    ghost predicate Consistent()
    {
      Keyed() && IndexStored() && IndexDistinct() && Covered()
    }
  }

  const Empty: Store := Store(map[], map[])

  /** How many entries of `list` carry `id`. */
  function CountId(list: seq<Chat>, id: string): nat
  {
    if list == [] then 0 else (if list[0].id == id then 1 else 0) + CountId(list[1..], id)
  }

  /** After `AddChat(c)`, `GetChat(c.ID)` is `c`, and every other ID reads as before. */
  lemma AddThenGet(s: Store, c: Chat, id: string)
    ensures s.Add(c).GetChat(c.id) == Some(c)
    ensures id != c.id ==> s.Add(c).GetChat(id) == s.GetChat(id)
  {
  }

  /** After `AddChat(c)`, its room's list is the old one with `c` appended at
      the end, and every other room's list is unchanged. */
  lemma AddAppends(s: Store, c: Chat, roomId: string)
    ensures s.Add(c).GetChatsByRoom(roomId)
         == if roomId == c.roomId then s.GetChatsByRoom(roomId) + [c] else s.GetChatsByRoom(roomId)
  {
  }

  /** The store after a run of `AddChat` calls, in call order. */
  function AddAll(s: Store, cs: seq<Chat>): Store
    decreases |cs|
  {
    if cs == [] then s else AddAll(s.Add(cs[0]), cs[1..])
  }

  /** The chats of `cs` that belong to room `roomId`, in order. */
  function InRoom(cs: seq<Chat>, roomId: string): seq<Chat>
  {
    if cs == [] then []
    else if cs[0].roomId == roomId then [cs[0]] + InRoom(cs[1..], roomId)
    else InRoom(cs[1..], roomId)
  }

  /** `GetChatsByRoom` lists a room's chats in insertion order: after a run of
      adds, the room's list is the old one followed by exactly the added chats
      of that room, in the order they were added. */
  lemma {:induction false} AddAllInsertionOrder(s: Store, cs: seq<Chat>, roomId: string)
    ensures AddAll(s, cs).GetChatsByRoom(roomId) == s.GetChatsByRoom(roomId) + InRoom(cs, roomId)
    decreases |cs|
  {
    if cs != [] {
      AddAllInsertionOrder(s.Add(cs[0]), cs[1..], roomId);
      AddAppends(s, cs[0], roomId);
      if cs[0].roomId == roomId {
        assert s.GetChatsByRoom(roomId) + InRoom(cs, roomId)
            == (s.GetChatsByRoom(roomId) + [cs[0]]) + InRoom(cs[1..], roomId);
      }
    }
  }

  /** `DeleteChat` of an absent ID changes neither structure. */
  lemma DeleteAbsent(s: Store, id: string)
    requires id !in s.chats
    ensures s.Delete(id) == s
  {
  }

  /** `DeleteChat` of a present ID removes it from the primary map, removes
      exactly the first entry with that ID from its room's list (the list
      `RemoveFirst` defines), keeping the order of the rest, and leaves every
      other room's list alone. */
  lemma DeletePresent(s: Store, id: string, roomId: string)
    requires id in s.chats
    ensures var t := s.Delete(id);
      var room := s.chats[id].roomId;
      var list := s.GetChatsByRoom(room);
      && t.chats == s.chats - {id}
      && t.GetChatsByRoom(room) == RemoveFirst(list, id)
      && (roomId != room ==> t.GetChatsByRoom(roomId) == s.GetChatsByRoom(roomId))
  {
    var room := s.chats[id].roomId;
    var list := s.GetChatsByRoom(room);
    var i := FirstIndexOf(list, id);
    if i < |list| {
      RemoveFirstSplices(list, id, i);
    } else {
      RemoveFirstAbsent(list, id);
    }
  }

  /** After `DeleteChatsByRoom(r)`, the room lists nothing, none of its former
      IDs is stored, other rooms' lists are unchanged and every other stored
      chat is kept. */
  lemma DeleteRoomEffect(s: Store, roomId: string, other: string, id: string)
    ensures var t := s.DeleteRoom(roomId);
      && t.GetChatsByRoom(roomId) == []
      && (forall c :: c in s.GetChatsByRoom(roomId) ==> c.id !in t.chats)
      && (other != roomId ==> t.GetChatsByRoom(other) == s.GetChatsByRoom(other))
      && (id in s.chats && id !in IdsOf(s.GetChatsByRoom(roomId)) ==> t.GetChat(id) == s.GetChat(id))
  {
  }

  /** Adding a chat with a fresh ID keeps the two structures consistent. */
  lemma AddKeepsConsistent(s: Store, c: Chat)
    requires s.Consistent()
    requires c.id !in s.chats
    ensures s.Add(c).Consistent()
  {
    AddKeepsStored(s, c);
    AddKeepsDistinct(s, c);
    AddKeepsCovered(s, c);
  }

  lemma AddKeepsStored(s: Store, c: Chat)
    requires s.IndexStored() && c.id !in s.chats
    ensures s.Add(c).IndexStored()
  {
    var t := s.Add(c);
    var oldList := s.GetChatsByRoom(c.roomId);
    forall r, i | r in t.byRoom && 0 <= i < |t.byRoom[r]|
      ensures t.byRoom[r][i].roomId == r && t.byRoom[r][i].id in t.chats && t.chats[t.byRoom[r][i].id] == t.byRoom[r][i]
    {
      if r == c.roomId && i < |oldList| {
        assert t.byRoom[r][i] == s.byRoom[r][i];
      }
    }
  }

  lemma AddKeepsDistinct(s: Store, c: Chat)
    requires s.IndexStored() && s.IndexDistinct() && c.id !in s.chats
    ensures s.Add(c).IndexDistinct()
  {
    var t := s.Add(c);
    var oldList := s.GetChatsByRoom(c.roomId);
    var list := oldList + [c];
    forall i, j | 0 <= i < j < |list| ensures list[i].id != list[j].id {
      assert list[i] == s.byRoom[c.roomId][i];
    }
  }

  lemma AddKeepsCovered(s: Store, c: Chat)
    requires s.Covered() && c.id !in s.chats
    ensures s.Add(c).Covered()
  {
    var t := s.Add(c);
    var list := s.GetChatsByRoom(c.roomId) + [c];
    forall id | id in t.chats ensures t.chats[id] in t.GetChatsByRoom(t.chats[id].roomId) {
      if id != c.id {
        var x := s.chats[id];
        assert x in s.GetChatsByRoom(x.roomId);
        if x.roomId == c.roomId {
          assert x in list;
        }
      } else {
        assert list[|list| - 1] == c;
      }
    }
  }

  /** Splicing index `k` out of a list with distinct IDs leaves a list with
      distinct IDs, none equal to the spliced entry's. */
  lemma SpliceDistinct(list: seq<Chat>, k: nat)
    requires DistinctIds(list) && k < |list|
    ensures var r := list[..k] + list[k + 1..];
      DistinctIds(r) && forall i :: 0 <= i < |r| ==> r[i].id != list[k].id
  {
    var r := list[..k] + list[k + 1..];
    assert forall i :: 0 <= i < |r| ==> r[i] == if i < k then list[i] else list[i + 1];
  }

  /** In a list with distinct IDs the entry carrying `id` is the first one. */
  lemma FirstIndexOfDistinct(list: seq<Chat>, id: string, k: nat)
    requires DistinctIds(list) && k < |list| && list[k].id == id
    ensures FirstIndexOf(list, id) == k
  {
  }

  /** Deleting one chat keeps the two structures consistent. */
  lemma DeleteKeepsConsistent(s: Store, id: string)
    requires s.Consistent()
    ensures s.Delete(id).Consistent()
  {
    if id in s.chats {
      var room := s.chats[id].roomId;
      var list := s.GetChatsByRoom(room);
      var k := DeleteIsSplice(s, id);
      var t := Store(s.chats - {id}, s.byRoom[room := list[..k] + list[k + 1..]]);
      DeleteKeepsStored(s, id, room, list, k, t);
      DeleteKeepsDistinct(s, room, list, k, t);
      DeleteKeepsCovered(s, id, room, list, k, t);
    }
  }

  /** Under consistency, deleting a stored chat splices out the index entry
      at which it is listed in its room. */
  lemma DeleteIsSplice(s: Store, id: string) returns (k: nat)
    requires s.Keyed() && s.IndexDistinct() && s.Covered() && id in s.chats
    ensures var list := s.GetChatsByRoom(s.chats[id].roomId);
      && s.chats[id].roomId in s.byRoom
      && k < |list| && list[k] == s.chats[id]
      && s.Delete(id) == Store(s.chats - {id}, s.byRoom[s.chats[id].roomId := list[..k] + list[k + 1..]])
  {
    var room := s.chats[id].roomId;
    var list := s.GetChatsByRoom(room);
    assert s.chats[id] in list;
    k :| 0 <= k < |list| && list[k] == s.chats[id];
    FirstIndexOfDistinct(list, id, k);
  }

  lemma DeleteKeepsStored(s: Store, id: string, room: string, list: seq<Chat>, k: nat, t: Store)
    requires s.Consistent() && id in s.chats
    requires room == s.chats[id].roomId && room in s.byRoom && list == s.byRoom[room]
    requires k < |list| && list[k].id == id
    requires t == Store(s.chats - {id}, s.byRoom[room := list[..k] + list[k + 1..]])
    ensures t.IndexStored()
  {
    var newList := list[..k] + list[k + 1..];
    SpliceDistinct(list, k);
    forall r, i | r in t.byRoom && 0 <= i < |t.byRoom[r]|
      ensures t.byRoom[r][i].roomId == r && t.byRoom[r][i].id in t.chats && t.chats[t.byRoom[r][i].id] == t.byRoom[r][i]
    {
      var e := t.byRoom[r][i];
      if r == room {
        assert e == if i < k then list[i] else list[i + 1];
        assert e.id != id;
      } else {
        assert e == s.byRoom[r][i];
        assert e.id != id;
      }
    }
  }

  lemma DeleteKeepsDistinct(s: Store, room: string, list: seq<Chat>, k: nat, t: Store)
    requires s.IndexDistinct()
    requires room in s.byRoom && list == s.byRoom[room] && k < |list|
    requires t.byRoom == s.byRoom[room := list[..k] + list[k + 1..]]
    ensures t.IndexDistinct()
  {
    SpliceDistinct(list, k);
  }

  lemma DeleteKeepsCovered(s: Store, id: string, room: string, list: seq<Chat>, k: nat, t: Store)
    requires s.Keyed() && s.Covered() && id in s.chats
    requires room == s.chats[id].roomId && room in s.byRoom && list == s.byRoom[room]
    requires k < |list| && list[k].id == id
    requires t == Store(s.chats - {id}, s.byRoom[room := list[..k] + list[k + 1..]])
    ensures t.Covered()
  {
    var newList := list[..k] + list[k + 1..];
    forall x | x in t.chats ensures t.chats[x] in t.GetChatsByRoom(t.chats[x].roomId) {
      var c := s.chats[x];
      assert c in s.GetChatsByRoom(c.roomId);
      if c.roomId == room {
        var j :| 0 <= j < |list| && list[j] == c;
        assert j != k;
        if j < k {
          assert newList[j] == c;
        } else {
          assert newList[j - 1] == c;
        }
      }
    }
  }

  /** Deleting a room's chats keeps the two structures consistent. */
  lemma DeleteRoomKeepsConsistent(s: Store, roomId: string)
    requires s.Consistent()
    ensures s.DeleteRoom(roomId).Consistent()
  {
    DeleteRoomKeepsStored(s, roomId);
    DeleteRoomKeepsCovered(s, roomId);
  }

  /** No other room lists one of the deleted room's IDs, so other rooms' entries stay stored. */
  lemma DeleteRoomKeepsStored(s: Store, roomId: string)
    requires s.IndexStored()
    ensures s.DeleteRoom(roomId).IndexStored()
  {
    var t := s.DeleteRoom(roomId);
    var gone := s.GetChatsByRoom(roomId);
    forall r, i | r in t.byRoom && 0 <= i < |t.byRoom[r]|
      ensures t.byRoom[r][i].roomId == r && t.byRoom[r][i].id in t.chats && t.chats[t.byRoom[r][i].id] == t.byRoom[r][i]
    {
      var e := s.byRoom[r][i];
      assert r != roomId;
      assert e.id !in IdsOf(gone);
    }
  }

  /** A chat that survives belongs to another room, whose list is untouched. */
  lemma DeleteRoomKeepsCovered(s: Store, roomId: string)
    requires s.Keyed() && s.Covered()
    ensures s.DeleteRoom(roomId).Covered()
  {
    var t := s.DeleteRoom(roomId);
    var gone := s.GetChatsByRoom(roomId);
    forall x | x in t.chats ensures t.chats[x] in t.GetChatsByRoom(t.chats[x].roomId) {
      var c := s.chats[x];
      assert c in s.GetChatsByRoom(c.roomId) && c.id == x;
      assert c.roomId != roomId;
    }
  }

  /** Under consistency every stored chat is listed exactly once in its own
      room and in no other room. */
  lemma ConsistentListsOnce(s: Store, id: string, roomId: string)
    requires s.Consistent()
    requires id in s.chats
    ensures CountId(s.GetChatsByRoom(roomId), id) == if roomId == s.chats[id].roomId then 1 else 0
  {
    var list := s.GetChatsByRoom(roomId);
    if roomId == s.chats[id].roomId {
      var k :| 0 <= k < |list| && list[k] == s.chats[id];
      CountDistinct(list, id, k);
    } else {
      forall k | 0 <= k < |list| ensures list[k].id != id {
        assert list[k].roomId == roomId;
      }
      CountAbsent(list, id);
    }
  }

  lemma {:induction false} CountAbsent(list: seq<Chat>, id: string)
    requires forall k :: 0 <= k < |list| ==> list[k].id != id
    ensures CountId(list, id) == 0
    decreases |list|
  {
    if list != [] {
      assert forall k :: 0 <= k < |list[1..]| ==> list[1..][k] == list[k + 1];
      CountAbsent(list[1..], id);
    }
  }

  lemma {:induction false} CountDistinct(list: seq<Chat>, id: string, k: nat)
    requires DistinctIds(list)
    requires k < |list| && list[k].id == id
    ensures CountId(list, id) == 1
    decreases |list|
  {
    assert forall j :: 0 <= j < |list[1..]| ==> list[1..][j] == list[j + 1];
    if k == 0 {
      CountAbsent(list[1..], id);
    } else {
      assert DistinctIds(list[1..]);
      CountDistinct(list[1..], id, k - 1);
    }
  }

  /** A reused ID is stored once but indexed twice, and deleting it then
      leaves an index entry whose ID is no longer stored: the reason the
      consistency lemmas need fresh IDs. */
  lemma ReusedIdLeavesStaleEntry(c1: Chat, c2: Chat)
    requires c1.id == c2.id && c1.roomId == c2.roomId && c1 != c2
    ensures var t := Empty.Add(c1).Add(c2);
      && t.GetChat(c1.id) == Some(c2)
      && t.GetChatsByRoom(c1.roomId) == [c1, c2]
      && t.Delete(c1.id).GetChatsByRoom(c1.roomId) == [c2]
      && t.Delete(c1.id).GetChat(c1.id) == None
      && !t.Delete(c1.id).Consistent()
  {
    var t := Empty.Add(c1).Add(c2);
    assert t.GetChatsByRoom(c1.roomId) == [c1, c2];
    assert RemoveFirst([c1, c2], c1.id) == [c2];
    var u := t.Delete(c1.id);
    assert u.byRoom[c1.roomId][0] == c2;
  }

  /** The chat store as the models package holds it: two maps updated in place. */
  class ChatStore {
    var chats: map<string, Chat>
    var chatsByRoom: map<string, seq<Chat>>

    function Value(): Store
      reads this
    {
      Store(chats, chatsByRoom)
    }

    ghost predicate Valid()
      reads this
    {
      Value().Keyed()
    }

    /** `NewChatStore`: both maps empty. */
    constructor ()
      ensures Value() == Empty && Valid()
    {
      chats, chatsByRoom := map[], map[];
    }

    /** `GetChats`: every stored chat exactly once, in map order. */
    method GetChats() returns (r: seq<Chat>)
      requires Valid()
      ensures |r| == |chats|
      ensures forall i :: 0 <= i < |r| ==> r[i].id in chats && chats[r[i].id] == r[i]
      ensures DistinctIds(r)
      ensures forall id :: id in chats ==> chats[id] in r
    {
      r := [];
      var pending := chats.Keys;
      while pending != {}
        invariant pending <= chats.Keys
        invariant forall i :: 0 <= i < |r| ==> r[i].id in chats && r[i].id !in pending && chats[r[i].id] == r[i]
        invariant DistinctIds(r)
        invariant forall id :: id in chats && id !in pending ==> chats[id] in r
        invariant |r| + |pending| == |chats|
        decreases pending
      {
        var id :| id in pending;
        r := r + [chats[id]];
        pending := pending - {id};
      }
    }

    /** `GetChat`: the stored chat exactly when the ID is present, Go's `(nil, false)` otherwise. */
    function GetChat(id: string): (r: Option<Chat>)
      reads this
      ensures r.Some? <==> id in chats
      ensures r.Some? ==> r.value == chats[id]
      ensures r.Some? && Valid() ==> r.value.id == id
    {
      Value().GetChat(id)
    }

    /** `GetChatsByRoom`: the room's chats in insertion order, empty for an unknown room;
        under the index invariant every entry belongs to the room and is the stored chat. */
    function GetChatsByRoom(roomId: string): (r: seq<Chat>)
      reads this
      ensures roomId !in chatsByRoom ==> r == []
      ensures roomId in chatsByRoom ==> r == chatsByRoom[roomId]
      ensures Value().IndexStored() ==>
        forall i :: 0 <= i < |r| ==> r[i].roomId == roomId && r[i].id in chats && chats[r[i].id] == r[i]
    {
      Value().GetChatsByRoom(roomId)
    }

    /** `AddChat`. */
    method AddChat(chat: Chat)
      modifies this
      ensures Value() == old(Value()).Add(chat)
      ensures old(Valid()) ==> Valid()
      ensures old(Value().Consistent()) && chat.id !in old(chats) ==> Value().Consistent()
    {
      ghost var s0 := Value();
      chats := chats[chat.id := chat];
      chatsByRoom := chatsByRoom[chat.roomId := GetChatsByRoom(chat.roomId) + [chat]];
      if s0.Consistent() && chat.id !in s0.chats {
        AddKeepsConsistent(s0, chat);
      }
    }

    /** `DeleteChat`: reports whether the ID was stored. */
    method DeleteChat(id: string) returns (deleted: bool)
      modifies this
      ensures deleted == (id in old(chats))
      ensures Value() == old(Value()).Delete(id)
      ensures old(Valid()) ==> Valid()
      ensures old(Value().Consistent()) ==> Value().Consistent()
    {
      ghost var s0 := Value();
      if id !in chats {
        return false;
      }
      var chat := chats[id];
      chats := chats - {id};
      var roomChats := GetChatsByRoom(chat.roomId);
      var i := 0;
      while i < |roomChats|
        invariant 0 <= i <= |roomChats|
        invariant forall k :: 0 <= k < i ==> roomChats[k].id != id
        invariant chatsByRoom == s0.byRoom && chats == s0.chats - {id}
      {
        if roomChats[i].id == id {
          assert FirstIndexOf(roomChats, id) == i;
          chatsByRoom := chatsByRoom[chat.roomId := roomChats[..i] + roomChats[i + 1..]];
          assert Value() == s0.Delete(id);
          break;
        }
        i := i + 1;
      }
      assert Value() == s0.Delete(id);
      if s0.Consistent() {
        DeleteKeepsConsistent(s0, id);
      }
      return true;
    }

    /** `DeleteChatsByRoom`. */
    method DeleteChatsByRoom(roomId: string)
      modifies this
      ensures Value() == old(Value()).DeleteRoom(roomId)
      ensures old(Valid()) ==> Valid()
      ensures old(Value().Consistent()) ==> Value().Consistent()
    {
      ghost var s0 := Value();
      var roomChats := GetChatsByRoom(roomId);
      var i := 0;
      while i < |roomChats|
        invariant 0 <= i <= |roomChats|
        invariant chats == s0.chats - IdsOf(roomChats[..i])
        invariant chatsByRoom == s0.byRoom
      {
        assert IdsOf(roomChats[..i + 1]) == IdsOf(roomChats[..i]) + {roomChats[i].id} by {
          assert roomChats[..i + 1] == roomChats[..i] + [roomChats[i]];
        }
        chats := chats - {roomChats[i].id};
        i := i + 1;
      }
      assert roomChats[..i] == roomChats;
      chatsByRoom := chatsByRoom - {roomId};
      if s0.Consistent() {
        DeleteRoomKeepsConsistent(s0, roomId);
      }
    }
  }
}
