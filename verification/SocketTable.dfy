/** The table of connections of a socket: a fixed array searched by connection id. */
module SocketTable {
  import opened Wire
  import opened Wrappers

  /** TCP_SOCKET_NUM_TCB */
  const SLOTS: nat := 32

  /** A connection: its id, and whatever else is kept with it. */
  datatype Connection<T> = Connection(id: u32, block: T)

  /** tcp_shared_calculate_connection_id: the 64-bit value is returned as 32 bits. */
  function ConnectionId(remoteIp: u32, remotePort: u16, hostPort: u16): u32
  {
    U32(remoteIp * TWO32 + remotePort * TWO16 + hostPort)
  }

  /** The remote address does not enter: two connections share an id exactly when their ports agree. */
  lemma IdsCollideExactly(ip: u32, port: u16, host: u16, ip': u32, port': u16, host': u16)
    ensures ConnectionId(ip, port, host) == ConnectionId(ip', port', host') <==> port == port' && host == host'
  {
    IdIsPorts(ip, port, host);
    IdIsPorts(ip', port', host');
  }

  lemma IdIsPorts(ip: u32, port: u16, host: u16)
    ensures ConnectionId(ip, port, host) == port as int * 0x1_0000 + host
  {
    var low := port as int * 0x1_0000 + host;
    assert (ip as int * 0x1_0000_0000 + low) % 0x1_0000_0000 == low % 0x1_0000_0000;
  }

  // ---------------------------------------------------------------- the array as a sequence of slots

  function FirstFree<T>(s: seq<Option<Connection<T>>>): (i: nat)
    ensures i <= |s| && (i < |s| ==> s[i].None?) && forall j | 0 <= j < i :: s[j].Some?
  {
    if s == [] || s[0].None? then 0 else 1 + FirstFree(s[1..])
  }

  function Stored<T>(s: seq<Option<Connection<T>>>, c: Connection<T>): seq<Option<Connection<T>>>
  {
    if FirstFree(s) < |s| then s[FirstFree(s) := Some(c)] else s
  }

  function Found<T>(s: seq<Option<Connection<T>>>, id: u32): Option<T>
  {
    if s == [] then None
    else if s[0].Some? && s[0].value.id == id then Some(s[0].value.block)
    else Found(s[1..], id)
  }

  function Without<T>(s: seq<Option<Connection<T>>>, id: u32): (r: seq<Option<Connection<T>>>)
    ensures |r| == |s|
    ensures forall i | 0 <= i < |s| :: r[i] == if s[i].Some? && s[i].value.id == id then None else s[i]
  {
    seq(|s|, i requires 0 <= i < |s| => if s[i].Some? && s[i].value.id == id then None else s[i])
  }

  class Socket<T(0)> {
    const slots: array<Option<Connection<T>>>

    constructor ()
      ensures fresh(slots) && slots[..] == seq(32, _ => None)
    {
      slots := new Option<Connection<T>>[SLOTS](_ => None);
    }

    /** tcp_add_transmission_control_block: the first free slot, or nowhere. */
    method Add(c: Connection<T>)
      modifies slots
      ensures slots[..] == Stored(old(slots[..]), c)
    {
      var i := 0;
      while i < slots.Length
        invariant 0 <= i <= slots.Length && slots[..] == old(slots[..])
        invariant forall j | 0 <= j < i :: slots[j].Some?
      {
        if slots[i].None? {
          slots[i] := Some(c);
          FirstFreeIs(old(slots[..]), i);
          return;
        }
        i := i + 1;
      }
      FirstFreeIs(slots[..], i);
    }

    /** tcp_get_transmission_control_block */
    method Get(id: u32) returns (r: Option<T>)
      ensures r == Found(slots[..], id)
    {
      var i := 0;
      while i < slots.Length
        invariant 0 <= i <= slots.Length
        invariant Found(slots[..], id) == Found(slots[i..], id)
      {
        assert slots[i..][0] == slots[i] && slots[i..][1..] == slots[i + 1..];
        if slots[i].Some? && slots[i].value.id == id {
          return Some(slots[i].value.block);
        }
        i := i + 1;
      }
      assert slots[0..] == slots[..] && slots[i..] == [];
      r := None;
    }

    /** tcp_delete_transmission_control_block: every slot with the id is cleared. */
    method Delete(id: u32)
      modifies slots
      ensures slots[..] == Without(old(slots[..]), id)
    {
      var i := 0;
      while i < slots.Length
        invariant 0 <= i <= slots.Length
        invariant forall j | 0 <= j < i :: slots[j] == Without(old(slots[..]), id)[j]
        invariant forall j | i <= j < slots.Length :: slots[j] == old(slots[j])
      {
        if slots[i].Some? && slots[i].value.id == id {
          slots[i] := None;
        }
        i := i + 1;
      }
    }
  }

  lemma {:induction false} FirstFreeIs<T>(s: seq<Option<Connection<T>>>, i: nat)
    requires i <= |s| && (i < |s| ==> s[i].None?) && forall j | 0 <= j < i :: s[j].Some?
    ensures FirstFree(s) == i
  {
    if i > 0 {
      assert forall j | 0 <= j < i - 1 :: s[1..][j] == s[j + 1];
      FirstFreeIs(s[1..], i - 1);
    }
  }

  // ---------------------------------------------------------------- the table as a map

  lemma {:induction false} FoundAt<T>(s: seq<Option<Connection<T>>>, id: u32, i: nat)
    requires i < |s| && s[i].Some? && s[i].value.id == id
    requires forall j | 0 <= j < i :: s[j].None? || s[j].value.id != id
    ensures Found(s, id) == Some(s[i].value.block)
  {
    if i > 0 {
      assert forall j | 0 <= j < i - 1 :: s[1..][j] == s[j + 1];
      FoundAt(s[1..], id, i - 1);
    }
  }

  lemma {:induction false} FoundNowhere<T>(s: seq<Option<Connection<T>>>, id: u32)
    ensures Found(s, id) == None <==> forall j | 0 <= j < |s| :: s[j].None? || s[j].value.id != id
  {
    if s != [] {
      FoundNowhere(s[1..], id);
      assert forall j | 0 <= j < |s| - 1 :: s[1..][j] == s[j + 1];
      if s[0].None? || s[0].value.id != id {
        if forall j | 0 <= j < |s[1..]| :: s[1..][j].None? || s[1..][j].value.id != id {
          forall j | 0 <= j < |s| ensures s[j].None? || s[j].value.id != id {
            if j > 0 { assert s[1..][j - 1] == s[j]; }
          }
        } else {
          var j :| 0 <= j < |s[1..]| && !(s[1..][j].None? || s[1..][j].value.id != id);
          assert s[j + 1] == s[1..][j];
        }
      }
    }
  }

  /** The first slot with an id, if any. */
  lemma {:induction false} FirstWith<T>(s: seq<Option<Connection<T>>>, id: u32) returns (i: nat)
    requires Found(s, id) != None
    ensures i < |s| && s[i].Some? && s[i].value.id == id
    ensures forall j | 0 <= j < i :: s[j].None? || s[j].value.id != id
  {
    if s[0].Some? && s[0].value.id == id {
      i := 0;
    } else {
      i := FirstWith(s[1..], id);
      assert forall j | 0 <= j < i :: s[1..][j] == s[j + 1];
      i := i + 1;
    }
  }

  /** A new connection is found under its id exactly when there was room, and no other lookup changes. */
  lemma AddedIsFoundExactly<T>(s: seq<Option<Connection<T>>>, c: Connection<T>, id: u32)
    requires Found(s, c.id) == None
    ensures Found(Stored(s, c), c.id) == Some(c.block) <==> exists i :: 0 <= i < |s| && s[i].None?
    ensures id != c.id ==> Found(Stored(s, c), id) == Found(s, id)
  {
    var k, r := FirstFree(s), Stored(s, c);
    FoundNowhere(s, c.id);
    if k < |s| {
      assert s[k].None?;
      FoundAt(r, c.id, k);
      if id != c.id {
        FoundNowhere(s, id);
        FoundNowhere(r, id);
        if Found(s, id) != None {
          var i := FirstWith(s, id);
          FoundAt(s, id, i);
          FoundAt(r, id, i);
        }
      }
    }
  }

  /** A deleted id is found nowhere, and no other lookup changes. */
  lemma DeletedIsGone<T>(s: seq<Option<Connection<T>>>, id: u32, other: u32)
    ensures Found(Without(s, id), id) == None
    ensures other != id ==> Found(Without(s, id), other) == Found(s, other)
  {
    var r := Without(s, id);
    FoundNowhere(r, id);
    if other != id {
      FoundNowhere(s, other);
      FoundNowhere(r, other);
      if Found(s, other) != None {
        var i := FirstWith(s, other);
        FoundAt(s, other, i);
        FoundAt(r, other, i);
      }
    }
  }
}
