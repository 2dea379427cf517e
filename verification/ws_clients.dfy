/**
  The WebSocket client table and the connection diagnostics of src/wifi.cpp.

  The table is a fixed array of four descriptors with a count; the clients
  are meant to be the first `count` entries, empty entries hold -1. Whether a
  socket is still usable is a property of the network stack: it is the
  `alive` parameter of the clean-up.
 */
module WsClients {
  import opened Base

  const MaxClients := 4

  datatype Table = Table(fds: seq<int>, count: int)

  /** The array always has its four entries. */
  predicate Shaped(t: Table) { |t.fds| == MaxClients }

  /** The table at start-up. */
  const Initial := Table([-1, -1, -1, -1], 0)

  /** The clients the table means to hold: its first `count` entries. */
  function Live(t: Table): seq<int>
    requires Shaped(t) && 0 <= t.count <= MaxClients
  {
    t.fds[..t.count]
  }

  /**
    `register_ws_client`: the descriptor goes to entry `count`, which grows by
    one; a full table is left as it is. `None` stands for a negative count,
    where the store lands outside the array.
   */
  function Register(t: Table, fd: int): (r: Option<Table>)
    requires Shaped(t)
    ensures r.None? <==> t.count < 0
    ensures r.Some? ==> Shaped(r.value)
    ensures t.count >= MaxClients ==> r == Some(t)
    ensures 0 <= t.count < MaxClients ==>
              && r.value.count == t.count + 1
              && r.value.fds[t.count] == fd
              && forall k :: 0 <= k < MaxClients && k != t.count ==> r.value.fds[k] == t.fds[k]
    ensures 0 <= t.count <= MaxClients ==> 0 <= r.value.count <= MaxClients
  {
    if t.count >= MaxClients then Some(t)
    else if t.count < 0 then None
    else Some(Table(t.fds[t.count := fd], t.count + 1))
  }

  /** `find_ws_client_by_fd`: the first of all four entries holding `fd`, or -1. */
  function Find(t: Table, fd: int): (i: int)
    requires Shaped(t)
    ensures i == -1 <==> fd !in t.fds
    ensures i != -1 ==> 0 <= i < MaxClients && t.fds[i] == fd && fd !in t.fds[..i]
  {
    FindFrom(t.fds, fd, 0)
  }

  function FindFrom(fds: seq<int>, fd: int, i: nat): (r: int)
    requires i <= |fds|
    ensures r == -1 <==> fd !in fds[i..]
    ensures r != -1 ==> i <= r < |fds| && fds[r] == fd && fd !in fds[i..r]
    decreases |fds| - i
  {
    if i == |fds| then -1
    else if fds[i] == fd then i
    else
      assert fds[i..] == [fds[i]] + fds[i + 1..];
      FindFrom(fds, fd, i + 1)
  }

  /**
    `unregister_ws_client`: the first entry holding `fd` anywhere in the
    array becomes -1 and the count drops by one; nothing is moved.
   */
  function Unregister(t: Table, fd: int): (r: Table)
    requires Shaped(t)
    ensures Shaped(r)
    ensures fd !in t.fds ==> r == t
    ensures fd in t.fds ==>
              var i := Find(t, fd);
              && r.count == t.count - 1
              && r.fds[i] == -1
              && forall k :: 0 <= k < MaxClients && k != i ==> r.fds[k] == t.fds[k]
  {
    var i := Find(t, fd);
    if i != -1 then Table(t.fds[i := -1], t.count - 1) else t
  }

  /** The disconnect handler forgets the clients by zeroing the count only. */
  function DisconnectReset(t: Table): (r: Table)
    ensures r.count == 0 && r.fds == t.fds
  {
    t.(count := 0)
  }

  /** The clean-up keeps an entry that is empty (negative) or whose socket is alive. */
  predicate Keeps(alive: int -> bool, fd: int) { fd < 0 || alive(fd) }

  /** The live entries that survive a clean-up, in their order. */
  function Survivors(s: seq<int>, alive: int -> bool): (r: seq<int>)
    ensures |r| <= |s|
  {
    if |s| == 0 then []
    else (if Keeps(alive, s[0]) then [s[0]] else []) + Survivors(s[1..], alive)
  }

  /** A survivor is an entry that was there and is kept; every such entry survives. */
  lemma {:induction false} SurvivorsMembers(s: seq<int>, alive: int -> bool)
    ensures forall x :: x in Survivors(s, alive) <==> x in s && Keeps(alive, x)
  {
    if |s| > 0 {
      SurvivorsMembers(s[1..], alive);
      assert forall x :: x in s <==> x == s[0] || x in s[1..];
    }
  }

  /**
    `websocket_cleanup_dead_connections`: every live entry whose socket is
    dead is closed and removed by shifting the later live entries down one
    place; the count drops by one per removal. Entries from the old count on
    are not touched.
   */
  method Cleanup(t: Table, alive: int -> bool) returns (r: Table)
    requires Shaped(t) && t.count <= MaxClients
    ensures Shaped(r)
    ensures t.count <= 0 ==> r == t
    ensures t.count > 0 ==>
              && 0 <= r.count <= t.count
              && Live(r) == Survivors(Live(t), alive)
              && forall k :: t.count <= k < MaxClients ==> r.fds[k] == t.fds[k]
  {
    if t.count <= 0 {
      return t;
    }
    var fds := t.fds;
    var count := t.count;
    var i := 0;
    while i < count
      invariant 0 <= i <= count <= t.count && |fds| == MaxClients
      invariant Survivors(t.fds[..t.count], alive) == fds[..i] + Survivors(fds[i..count], alive)
      invariant forall k :: t.count <= k < MaxClients ==> fds[k] == t.fds[k]
      decreases count - i
    {
      if fds[i] >= 0 && !alive(fds[i]) {
        var shifted := RemoveAt(fds, i, count);
        DropStep(fds, shifted, i, count, alive);
        fds, count := shifted, count - 1;
      } else {
        KeepStep(fds, i, count, alive);
        i := i + 1;
      }
    }
    r := Table(fds, count);
    assert fds[i..count] == [];
    assert fds[..i] == fds[..count];
  }

  lemma KeepStep(fds: seq<int>, i: nat, count: nat, alive: int -> bool)
    requires i < count <= |fds| && Keeps(alive, fds[i])
    ensures fds[..i + 1] + Survivors(fds[i + 1..count], alive) == fds[..i] + Survivors(fds[i..count], alive)
  {
    assert fds[i..count][1..] == fds[i + 1..count];
    assert fds[..i + 1] == fds[..i] + [fds[i]];
  }

  lemma DropStep(fds: seq<int>, shifted: seq<int>, i: nat, count: nat, alive: int -> bool)
    requires i < count <= |fds| == |shifted| && !Keeps(alive, fds[i])
    requires shifted[..i] == fds[..i]
    requires forall k :: i <= k < count - 1 ==> shifted[k] == fds[k + 1]
    ensures shifted[..i] + Survivors(shifted[i..count - 1], alive) == fds[..i] + Survivors(fds[i..count], alive)
  {
    assert shifted[i..count - 1] == fds[i + 1..count];
    assert fds[i..count][1..] == fds[i + 1..count];
  }

  /**
    The inner loop of the clean-up: entry i is set to -1 and the entries
    after it, up to the count, move down one place.
   */
  method RemoveAt(fds: seq<int>, i: nat, count: nat) returns (r: seq<int>)
    requires i < count <= |fds|
    ensures |r| == |fds|
    ensures r[..i] == fds[..i]
    ensures forall k :: i <= k < count - 1 ==> r[k] == fds[k + 1]
    ensures r[count - 1] == if i == count - 1 then -1 else fds[count - 1]
    ensures forall k :: count <= k < |fds| ==> r[k] == fds[k]
  {
    r := fds[i := -1];
    var j := i;
    while j < count - 1
      invariant i <= j <= count - 1 && |r| == |fds|
      invariant r[..i] == fds[..i]
      invariant forall k :: i <= k < j ==> r[k] == fds[k + 1]
      invariant forall k :: j < k < |fds| ==> r[k] == fds[k]
      invariant j == i ==> r[i] == -1
      invariant j > i ==> r[j] == fds[j]
    {
      r := r[j := r[j + 1]];
      j := j + 1;
    }
  }

  // ---------------------------------------------------------------------------
  // What register and unregister do to the client list
  // ---------------------------------------------------------------------------

  /**
    Register, register, unregister the first, register a third: the second
    client's entry is overwritten, and the empty marker sits inside the live
    part of the table.
   */
  lemma UnregisterLosesClient()
    ensures var t1 := Register(Initial, 5).value;
            var t2 := Register(t1, 6).value;
            var t3 := Unregister(t2, 5);
            var t4 := Register(t3, 7).value;
            Live(t4) == [-1, 7] && 6 !in t4.fds
  {
    var t1 := Register(Initial, 5).value;
    assert t1.fds == [5, -1, -1, -1];
    var t2 := Register(t1, 6).value;
    assert t2.fds == [5, 6, -1, -1];
    var t3 := Unregister(t2, 5);
    assert t3.fds == [-1, 6, -1, -1];
    var t4 := Register(t3, 7).value;
    assert t4.fds == [-1, 7, -1, -1];
  }

  /**
    After a disconnect zeroes the count, unregistering a client that was in
    the table drives the count to -1, and the next registration stores
    outside the array.
   */
  lemma UnregisterAfterDisconnectUnderflows()
    ensures var t := Unregister(DisconnectReset(Register(Initial, 5).value), 5);
            t.count == -1 && Register(t, 8).None?
  {
    var t1 := Register(Initial, 5).value;
    assert t1.fds == [5, -1, -1, -1];
  }

  /** The entries a sound table keeps: live ones first, -1 beyond the count. */
  predicate Sound(t: Table)
  {
    Shaped(t) && 0 <= t.count <= MaxClients && forall k :: t.count <= k < MaxClients ==> t.fds[k] == -1
  }

  /** The first occurrence of `x` removed; the list unchanged when there is none. */
  function RemoveFirst(s: seq<int>, x: int): (r: seq<int>)
    ensures x !in s ==> r == s
    ensures x in s ==> |r| == |s| - 1
  {
    if |s| == 0 then []
    else if s[0] == x then s[1..]
    else [s[0]] + RemoveFirst(s[1..], x)
  }

  /**
    Unregistering with compaction: the descriptor is looked up among the
    live entries only, removed, the later ones shift down, and the freed
    entry becomes -1.
   */
  function UnregisterCompacting(t: Table, fd: int): (r: Table)
    requires Sound(t)
    ensures Sound(r)
    ensures Live(r) == RemoveFirst(Live(t), fd)
  {
    var live := Live(t);
    var rest := RemoveFirst(live, fd);
    var fds := rest + seq(MaxClients - |rest|, _ => -1);
    assert fds[..|rest|] == rest;
    Table(fds, |rest|)
  }

  /** Disconnecting forgets the entries too. */
  function DisconnectClearing(t: Table): (r: Table)
    ensures Sound(r) && Live(r) == []
  {
    Initial
  }

  /** Registering into a sound table appends to the client list, unless the table is full. */
  lemma RegisterAppends(t: Table, fd: int)
    requires Sound(t)
    ensures Register(t, fd).Some? && Sound(Register(t, fd).value)
    ensures t.count < MaxClients ==> Live(Register(t, fd).value) == Live(t) + [fd]
    ensures t.count == MaxClients ==> Live(Register(t, fd).value) == Live(t)
  {
    if t.count < MaxClients {
      assert Register(t, fd).value.fds[..t.count + 1] == t.fds[..t.count] + [fd];
    }
  }

  /** With compaction the scenario that lost a client keeps both. */
  lemma CompactingKeepsClient()
    ensures var t1 := Register(Initial, 5).value;
            var t2 := Register(t1, 6).value;
            var t3 := UnregisterCompacting(t2, 5);
            var t4 := Register(t3, 7).value;
            Live(t4) == [6, 7]
  {
    var t1 := Register(Initial, 5).value;
    RegisterAppends(Initial, 5);
    assert Live(t1) == [5];
    var t2 := Register(t1, 6).value;
    RegisterAppends(t1, 6);
    assert Live(t2) == [5, 6];
    var t3 := UnregisterCompacting(t2, 5);
    assert Live(t3) == [6];
    RegisterAppends(t3, 7);
  }

  /** With the entries cleared on disconnect, a late unregister changes nothing. */
  lemma ClearingPreventsUnderflow(t: Table, fd: int)
    ensures UnregisterCompacting(DisconnectClearing(t), fd).count == 0
  {
  }

  // ---------------------------------------------------------------------------
  // Diagnostics
  // ---------------------------------------------------------------------------

  /** The signal bucket of `get_wifi_status`. */
  function RssiPercent(rssi: int): (p: int)
    ensures p == 100 || p == 80 || p == 60 || p == 40 || p == 20 || p == 10
    ensures rssi >= -50 <==> p == 100
    ensures rssi < -90 <==> p == 10
  {
    if rssi >= -50 then 100
    else if rssi >= -60 then 80
    else if rssi >= -70 then 60
    else if rssi >= -80 then 40
    else if rssi >= -90 then 20
    else 10
  }

  /** A stronger signal never shows a lower percentage. */
  lemma RssiMonotone(a: int, b: int)
    requires a <= b
    ensures RssiPercent(a) <= RssiPercent(b)
  {
  }

  function Repeat(c: char, n: nat): (r: string)
    ensures |r| == n && forall k :: 0 <= k < n ==> r[k] == c
  {
    if n == 0 then [] else [c] + Repeat(c, n - 1)
  }

  /** The ten-character bar: one '|' per ten percent, '.' for the rest. */
  method RssiBar(percent: int) returns (bar: string)
    requires 0 <= percent <= 100
    ensures bar == Repeat('|', percent / 10) + Repeat('.', 10 - percent / 10)
  {
    var bars := percent / 10;
    bar := [];
    var i := 0;
    while i < 10
      invariant 0 <= i <= 10 && |bar| == i
      invariant forall k :: 0 <= k < i ==> bar[k] == if k < bars then '|' else '.'
    {
      bar := bar + [if i < bars then '|' else '.'];
      i := i + 1;
    }
    var expected := Repeat('|', bars) + Repeat('.', 10 - bars);
    assert forall k :: 0 <= k < 10 ==> bar[k] == expected[k];
  }

  /** Seconds since the connection started, as a `uint32_t`; 0 when it has not started. */
  function UptimeSeconds(now: int, start: int): (u: u32)
    ensures start <= 0 ==> u == 0
    ensures start > 0 && 0 <= now - start < 0x1_0000_0000 ==> u == now - start
  {
    if start > 0 then (now - start) % 0x1_0000_0000 else 0
  }

  /** The hours, minutes and seconds printed for an uptime. */
  function UptimeParts(u: u32): (r: (int, int, int))
    ensures r.0 * 3600 + r.1 * 60 + r.2 == u
    ensures 0 <= r.0 && 0 <= r.1 < 60 && 0 <= r.2 < 60
  {
    var rest := u % 3600;
    assert u == 3600 * (u / 3600) + rest;
    assert rest == 60 * (rest / 60) + rest % 60;
    assert u == 60 * (60 * (u / 3600) + rest / 60) + rest % 60;
    assert u % 60 == rest % 60;
    (u / 3600, rest / 60, u % 60)
  }
}
