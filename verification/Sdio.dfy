/**
 * The SDIO slave's sender (sdio_slv.c): four buffers that move between the list being filled ("Sended", which also
 * holds the free ones) and the list to be read by the host. A load and the interrupt for a finished read are each
 * one step. The four nodes are numbered, and a pointer to a node is its number.
 */
module Sdio {
  import opened Bytes

  const RX_BUFFER_SIZE := 512
  const RX_BUFFER_NUM := 4
  const NULL := -1

  // ---------- Bytes in a list of buffers ----------

  function Flatten(ss: seq<seq<byte>>): seq<byte> {
    if ss == [] then [] else ss[0] + Flatten(ss[1..])
  }

  lemma {:induction false} FlattenAppend(ss: seq<seq<byte>>, s: seq<byte>)
    ensures Flatten(ss + [s]) == Flatten(ss) + s
  {
    if ss == [] {
      assert ss + [s] == [s];
      assert [s][1..] == [];
    } else {
      assert (ss + [s])[1..] == ss[1..] + [s];
      FlattenAppend(ss[1..], s);
      Assoc(ss[0], Flatten(ss[1..]), s);
    }
  }

  // ---------- Linked lists of nodes ----------

  predicate IsNode(n: int) {
    0 <= n < RX_BUFFER_NUM
  }

  /** `next` links these nodes in this order and ends the list after the last. */
  ghost predicate Linked(next: seq<int>, ns: seq<int>) {
    && |next| == RX_BUFFER_NUM
    && (forall i :: 0 <= i < |ns| ==> IsNode(ns[i]))
    && (forall i {:trigger next[ns[i]]} :: 0 <= i < |ns| ==>
          next[ns[i]] == if i + 1 < |ns| then ns[i + 1] else NULL)
  }

  ghost predicate Distinct(ns: seq<int>) {
    forall i, j :: 0 <= i < j < |ns| ==> ns[i] != ns[j]
  }

  ghost predicate Disjoint(ns: seq<int>, ms: seq<int>) {
    forall i, j :: 0 <= i < |ns| && 0 <= j < |ms| ==> ns[i] != ms[j]
  }

  /** `head` and `tail` point to the ends; what `tail` holds for an empty list does not matter. */
  ghost predicate Ends(ns: seq<int>, head: int, tail: int) {
    if ns == [] then head == NULL else head == ns[0] && tail == ns[|ns| - 1]
  }

  /** Two disjoint acyclic lists that between them hold all four nodes. */
  ghost predicate TwoLists(next: seq<int>, a: seq<int>, b: seq<int>) {
    && |a| + |b| == RX_BUFFER_NUM
    && Distinct(a) && Distinct(b) && Disjoint(a, b)
    && Linked(next, a) && Linked(next, b)
  }

  /** Taking the first of `b` off and linking it behind the end of `a`. */
  lemma Relink(next: seq<int>, a: seq<int>, b: seq<int>, next': seq<int>)
    requires TwoLists(next, a, b) && b != []
    requires
      var linked := if a == [] then next else next[a[|a| - 1] := b[0]];
      next' == linked[b[0] := NULL]
    ensures TwoLists(next', a + [b[0]], b[1..])
    ensures next[b[0]] == if |b| > 1 then b[1] else NULL
    ensures a != [] ==> next[a[|a| - 1] := b[0]][b[0]] == next[b[0]]
  {
  }

  /** The contents after such a move. */
  lemma HoldMove(bytes: seq<seq<byte>>, a: seq<int>, b: seq<int>, queued: seq<seq<byte>>, filling: seq<byte>)
    requires AllHold(bytes, a, queued) && FirstHolds(bytes, b, filling) && b != []
    ensures AllHold(bytes, a + [b[0]], queued + [filling]) && FirstHolds(bytes, b[1..], [])
  {
  }

  lemma HoldRecycle(bytes: seq<seq<byte>>, a: seq<int>, b: seq<int>, queued: seq<seq<byte>>, filling: seq<byte>)
    requires AllHold(bytes, a, queued) && FirstHolds(bytes, b, filling)
    requires a != [] && Distinct(a) && Disjoint(a, b)
    ensures AllHold(bytes[a[0] := []], a[1..], queued[1..])
    ensures FirstHolds(bytes[a[0] := []], b + [a[0]], filling)
  {
  }

  lemma HoldFill(bytes: seq<seq<byte>>, a: seq<int>, b: seq<int>, queued: seq<seq<byte>>, filling: seq<byte>,
                 data: seq<byte>)
    requires AllHold(bytes, a, queued) && FirstHolds(bytes, b, filling)
    requires b != [] && Distinct(b) && Disjoint(a, b)
    ensures bytes[b[0]] == filling
    ensures AllHold(bytes[b[0] := filling + data], a, queued)
    ensures FirstHolds(bytes[b[0] := filling + data], b, filling + data)
  {
  }

  /** Each node holds the bytes at its position. */
  ghost predicate AllHold(bytes: seq<seq<byte>>, ns: seq<int>, contents: seq<seq<byte>>) {
    && |bytes| == RX_BUFFER_NUM && |contents| == |ns|
    && (forall i :: 0 <= i < |ns| ==> IsNode(ns[i]))
    && (forall i {:trigger ns[i]} :: 0 <= i < |ns| ==> bytes[ns[i]] == contents[i])
  }

  /** The first node holds these bytes, the others none. */
  ghost predicate FirstHolds(bytes: seq<seq<byte>>, ns: seq<int>, first: seq<byte>) {
    && |bytes| == RX_BUFFER_NUM && (ns == [] ==> first == [])
    && (forall i :: 0 <= i < |ns| ==> IsNode(ns[i]))
    && (forall i {:trigger ns[i]} :: 0 <= i < |ns| ==> bytes[ns[i]] == if i == 0 then first else [])
  }

  class Sender {
    var bytes: seq<seq<byte>>  // of each node, its buffer up to `tail`
    var next: seq<int>
    var headToSend: int
    var tailToSend: int
    var headSended: int
    var tailSended: int
    var hasRead: bool
    // The receive descriptor, and whether the hardware has been told to serve it.
    var rxBuf: int
    var rxLen: nat
    var started: bool

    ghost var toSend: seq<int>
    ghost var sended: seq<int>
    ghost var queued: seq<seq<byte>>  // the bytes in each node of toSend
    ghost var filling: seq<byte>      // the bytes in the first node of sended
    ghost var accepted: seq<byte>     // everything ever copied into a buffer
    ghost var delivered: seq<byte>    // everything the host has read

    /** The two lists are disjoint, acyclic, and together the four nodes. */
    ghost predicate Lists()
      reads this`next, this`toSend, this`sended, this`headToSend, this`tailToSend, this`headSended, this`tailSended
    {
      && TwoLists(next, toSend, sended)
      && Ends(toSend, headToSend, tailToSend)
      && Ends(sended, headSended, tailSended)
    }

    static ghost predicate Sizes(queued: seq<seq<byte>>) {
      && (forall i :: 1 <= i < |queued| ==> |queued[i]| == RX_BUFFER_SIZE)
      && (queued != [] ==> |queued[0]| <= RX_BUFFER_SIZE)
    }

    /** Only the first to send may be less than full; only the first of the others may hold anything. */
    static ghost predicate Holding(
      bytes: seq<seq<byte>>, toSend: seq<int>, sended: seq<int>, queued: seq<seq<byte>>, filling: seq<byte>)
    {
      && AllHold(bytes, toSend, queued) && FirstHolds(bytes, sended, filling)
      && Sizes(queued) && |filling| <= RX_BUFFER_SIZE
    }

    ghost predicate Contents()
      reads this`bytes, this`toSend, this`sended, this`queued, this`filling
    {
      Holding(bytes, toSend, sended, queued, filling)
    }

    /** A buffer in flight is the first to send. */
    ghost predicate Flight()
      reads this`hasRead, this`toSend, this`queued, this`started, this`rxBuf, this`rxLen
    {
      && (!hasRead ==> toSend != [] && queued != [] && started == (queued[0] != []))
      && (started ==> !hasRead && rxBuf == toSend[0] && rxLen == |queued[0]|)
    }

    /** No byte is lost, repeated or reordered. */
    ghost predicate Conserved()
      reads this`accepted, this`delivered, this`queued, this`filling
    {
      accepted == delivered + Flatten(queued) + filling
    }

    /** What holds even in the middle of a load. */
    ghost predicate Consistent()
      reads this
    {
      Lists() && Contents() && Flight() && Conserved()
    }

    /** Nothing is in flight and nothing waits to be. */
    ghost predicate Idle()
      reads this`hasRead, this`toSend
    {
      hasRead && toSend == []
    }

    /** Between steps an idle driver has nothing pending at all. */
    ghost predicate Valid()
      reads this
    {
      Consistent() && |filling| < RX_BUFFER_SIZE && (Idle() ==> filling == [])
    }

    /** Room for this many more bytes. */
    ghost function Free(): int
      reads this`sended, this`filling
    {
      RX_BUFFER_SIZE * |sended| - |filling|
    }

    /** The list set-up of sdio_slave_init; each turn allocates the next node. */
    constructor ()
      ensures Valid() && Idle() && accepted == [] && Free() == 2048
    {
      hasRead, started, rxLen, rxBuf := true, false, 0, NULL;
      headToSend, tailToSend, tailSended := NULL, NULL, NULL;
      bytes := [[], [], [], []];
      toSend, queued, filling, accepted, delivered := [], [], [], [], [];
      var head, links := NULL, [NULL, NULL, NULL, NULL];
      var loop, p := RX_BUFFER_NUM, NULL;
      ghost var made: seq<int> := [];
      while loop > 0
        invariant 0 <= loop <= RX_BUFFER_NUM && |made| == RX_BUFFER_NUM - loop
        invariant |links| == RX_BUFFER_NUM
        invariant forall i :: 0 <= i < |made| ==> made[i] == i
        invariant forall i :: 0 <= i < |links| ==> links[i] == if i + 1 < |made| then i + 1 else NULL
        invariant Ends(made, head, p)
      {
        loop := loop - 1;
        var node := RX_BUFFER_NUM - 1 - loop;
        if head == NULL {
          head := node;
        } else {
          links := links[p := node];
        }
        p := node;
        made := made + [node];
      }
      headSended, tailSended, next, sended := head, p, links, made;
    }

    // ---------- Loading ----------

    /** The memcpy into the buffer being filled. */
    method Fill(data: seq<byte>)
      requires Consistent() && sended != [] && |filling| + |data| <= RX_BUFFER_SIZE
      modifies this`filling, this`accepted, this`bytes
      ensures Consistent()
      ensures filling == old(filling) + data && accepted == old(accepted) + data
    {
      Assoc(delivered + Flatten(queued), filling, data);
      HoldFill(bytes, toSend, sended, queued, filling, data);
      bytes := bytes[headSended := bytes[headSended] + data];
      filling, accepted := filling + data, accepted + data;
    }

    /** The first of the Sended list goes to the end of the ToSend list. */
    method MoveLinks()
      requires Lists() && sended != []
      modifies this`headToSend, this`tailToSend, this`headSended, this`toSend, this`sended, this`next
      ensures Lists()
      ensures toSend == old(toSend) + [old(sended)[0]] && sended == old(sended)[1..]
    {
      ghost var next0 := next;
      if headToSend == NULL {
        tailToSend := headSended;
        headToSend := tailToSend;
      } else {
        next := next[tailToSend := headSended];
        tailToSend := next[tailToSend];
      }
      assert tailToSend == sended[0];
      headSended := next[headSended];
      next := next[tailToSend := NULL];
      Relink(next0, toSend, sended, next);
      toSend, sended := toSend + [sended[0]], sended[1..];
    }

    /** The same with the bytes. */
    method MoveHead()
      requires Consistent() && sended != [] && (toSend == [] || |filling| == RX_BUFFER_SIZE)
      modifies this`headToSend, this`tailToSend, this`headSended, this`toSend, this`sended, this`next,
        this`queued, this`filling
      ensures Consistent()
      ensures toSend == old(toSend) + [old(sended)[0]] && sended == old(sended)[1..]
      ensures queued == old(queued) + [old(filling)] && filling == []
    {
      FlattenAppend(queued, filling);
      Assoc(delivered, Flatten(queued), filling);
      HoldMove(bytes, toSend, sended, queued, filling);
      MoveLinks();
      queued, filling := queued + [filling], [];
    }

    /** rx_buff_load_done: nothing is started for no bytes. */
    method LoadDone(len: nat)
      requires len <= RX_BUFFER_SIZE
      modifies this`rxLen, this`started
      ensures if len == 0 then rxLen == old(rxLen) && started == old(started) else rxLen == len && started
    {
      if len == 0 {
        return;
      }
      rxLen := len;
      started := true;
    }

    /** sdio_try_to_load */
    method TryToLoad()
      requires Consistent()
      modifies this`rxBuf, this`rxLen, this`started, this`hasRead
      ensures Consistent()
      ensures if old(hasRead) && toSend != [] then !hasRead && started == (queued[0] != [])
              else hasRead == old(hasRead) && started == old(started)
    {
      if hasRead && headToSend != NULL {
        rxBuf := headToSend;
        LoadDone(|bytes[headToSend]|);
        hasRead := false;
      }
    }

    /** One turn of the copy loop takes `n` bytes: all that is left, or as many as fill a buffer, which moves on. */
    method CopyOnce(left: seq<byte>) returns (n: nat, moved: bool)
      requires Consistent() && sended != [] && |filling| < RX_BUFFER_SIZE && left != []
      modifies this
      ensures Consistent() && |filling| < RX_BUFFER_SIZE && (headSended == NULL <==> sended == [])
      ensures 0 < n <= |left| && Free() == old(Free()) - n
      ensures accepted == old(accepted) + left[..n] && delivered == old(delivered)
      ensures hasRead == old(hasRead) && started == old(started)
      ensures if moved then toSend != [] && |old(filling)| + n == RX_BUFFER_SIZE && filling == []
              else toSend == old(toSend) && sended != [] && n == |left| < RX_BUFFER_SIZE
                   && filling == old(filling) + left
    {
      var leftLen := RX_BUFFER_SIZE - |bytes[headSended]|;
      if |left| < leftLen {
        assert left[..|left|] == left;
        Fill(left);
        return |left|, false;
      }
      FillUp(left[..leftLen]);
      return leftLen, true;
    }

    /** The rest of a buffer, which moves on. */
    method FillUp(data: seq<byte>)
      requires Consistent() && sended != [] && |filling| + |data| == RX_BUFFER_SIZE
      modifies this
      ensures Consistent() && filling == [] && (headSended == NULL <==> sended == [])
      ensures accepted == old(accepted) + data && delivered == old(delivered)
      ensures hasRead == old(hasRead) && started == old(started)
      ensures toSend == old(toSend) + [old(sended)[0]] && sended == old(sended)[1..]
    {
      Fill(data);
      MoveHead();
    }

    /** The start of an idle driver, after the copying. */
    method Kick()
      requires Consistent() && |filling| < RX_BUFFER_SIZE
      modifies this
      ensures Valid() && accepted == old(accepted) && delivered == old(delivered)
      ensures if old(toSend) == [] && old(hasRead) then started == (old(filling) != [])
              else hasRead == old(hasRead) && started == old(started) && Free() == old(Free())
      ensures old(toSend) != [] ==> filling == old(filling)
      ensures !Idle()
    {
      if headToSend == NULL {
        assert queued == [];
        MoveHead();
        assert queued[0] == old(filling);
        TryToLoad();
      }
    }

    /** In the copy loop: `moves` buffers filled, `fill` bytes in the next, and `loaded` bytes counted. */
    static predicate Tally(before: nat, taken: nat, moves: nat, fill: nat, loaded: nat) {
      before + taken == RX_BUFFER_SIZE * moves + fill && loaded == if moves == 0 then 0 else taken - fill
    }

    /** Before another turn: only the first buffer may have been begun. */
    static predicate Fresh(taken: nat, moves: nat, fill: nat) {
      if moves == 0 then taken == 0 else fill == 0
    }

    static lemma TallyMoved(before: nat, taken: nat, moves: nat, fill: nat, loaded: nat, n: nat)
      requires Tally(before, taken, moves, fill, loaded) && Fresh(taken, moves, fill) && fill + n == RX_BUFFER_SIZE
      ensures Tally(before, taken + n, moves + 1, 0, loaded + n)
    {
    }

    static lemma TallyLast(before: nat, taken: nat, moves: nat, fill: nat, loaded: nat, n: nat)
      requires Tally(before, taken, moves, fill, loaded) && Fresh(taken, moves, fill)
      ensures Tally(before, taken + n, moves, fill + n, loaded)
    {
    }

    static lemma TallyEnds(before: nat, taken: nat, moves: nat, fill: nat, loaded: nat)
      requires Tally(before, taken, moves, fill, loaded) && fill < RX_BUFFER_SIZE
      ensures moves == 0 <==> before + taken < RX_BUFFER_SIZE
    {
    }

    static lemma Advance(start: seq<byte>, data: seq<byte>, before: seq<byte>, left: seq<byte>, n: nat)
      requires n <= |left| && before + left == start + data
      ensures before + left[..n] + left[n..] == start + data
    {
      Assoc(before, left[..n], left[n..]);
      assert left[..n] + left[n..] == left;
    }

    static lemma Arrived(before: seq<byte>, data: seq<byte>, now: seq<byte>, left: seq<byte>)
      requires now + left == before + data && |left| <= |data|
      ensures now == before + data[..|data| - |left|]
    {
      assert (now + left)[..|now|] == now;
      assert (before + data)[..|now|] == before + data[..|data| - |left|];
    }

    /** Where the copy loop stands: `left` of `data` is still to do, and `taken` bytes are behind what was `start`. */
    ghost predicate Copying(start: seq<byte>, data: seq<byte>, left: seq<byte>, taken: nat, free: int)
      reads this
    {
      && accepted + left == start + data && taken + |left| == |data|
      && Free() == free - taken && |filling| < RX_BUFFER_SIZE
    }

    /** One turn of the copy loop; `over` says that the buffers are full. */
    method CopyTurn(left: seq<byte>, loaded: nat, ghost start: seq<byte>, ghost data: seq<byte>, ghost taken: nat,
                    ghost free: int, ghost before: nat, ghost moves: nat)
      returns (left': seq<byte>, loaded': nat, over: bool, ghost taken': nat, ghost moves': nat)
      requires Consistent() && sended != [] && left != [] && Copying(start, data, left, taken, free)
      requires Tally(before, taken, moves, |filling|, loaded) && Fresh(taken, moves, |filling|)
      modifies this
      ensures Consistent() && Copying(start, data, left', taken', free) && |left'| < |left|
      ensures Tally(before, taken', moves', |filling|, loaded')
      ensures left' != [] && !over ==> sended != [] && Fresh(taken', moves', |filling|)
      ensures over ==> sended == []
      ensures delivered == old(delivered) && hasRead == old(hasRead) && started == old(started)
      ensures toSend == [] <==> moves' == moves && old(toSend) == []
      ensures moves <= moves'
    {
      var n, moved := CopyOnce(left);
      Advance(start, data, old(accepted), left, n);
      left', taken' := left[n..], taken + n;
      if moved {
        TallyMoved(before, taken, moves, |old(filling)|, loaded, n);
        loaded', moves', over := loaded + n, moves + 1, headSended == NULL;
      } else {
        TallyLast(before, taken, moves, |old(filling)|, loaded, n);
        loaded', moves', over := loaded, moves, false;
      }
    }

    /** The copy loop takes the first `taken` bytes: all, or as many as fill the last buffer. */
    method CopyAll(data: seq<byte>) returns (loaded: nat, ghost taken: nat)
      requires Consistent() && sended != [] && |filling| < RX_BUFFER_SIZE
      modifies this
      ensures Consistent() && |filling| < RX_BUFFER_SIZE
      ensures taken <= |data| && (taken == |data| || sended == [])
      ensures accepted == old(accepted) + data[..taken] && delivered == old(delivered)
      ensures Free() == old(Free()) - taken
      ensures hasRead == old(hasRead) && started == old(started)
      ensures if toSend == [] then old(toSend) == [] && |filling| == |old(filling)| + |data|
              else old(toSend) != [] || |old(filling)| + |data| >= RX_BUFFER_SIZE
      ensures loaded == if |old(filling)| + taken < RX_BUFFER_SIZE then 0 else taken - |filling|
    {
      loaded, taken := 0, 0;
      var left, over := data, false;
      ghost var before, moves := |filling|, 0;
      while |left| > 0 && !over
        invariant Consistent() && Copying(old(accepted), data, left, taken, old(Free()))
        invariant Tally(before, taken, moves, |filling|, loaded)
        invariant left != [] && !over ==> sended != [] && Fresh(taken, moves, |filling|)
        invariant over ==> sended == []
        invariant delivered == old(delivered) && hasRead == old(hasRead) && started == old(started)
        invariant toSend == [] <==> moves == 0 && old(toSend) == []
        decreases |left|
      {
        left, loaded, over, taken, moves :=
          CopyTurn(left, loaded, old(accepted), data, taken, old(Free()), before, moves);
      }
      Arrived(old(accepted), data, accepted, left);
      TallyEnds(before, taken, moves, |filling|, loaded);
    }

    /**
     * sdio_load_data: as many bytes as there is room for are accepted, in order. An idle driver starts a transfer
     * for them exactly when there are some, but fewer than 512: a full buffer is on the ToSend list already when the
     * test for starting is made. Either way the driver is then no longer idle. The value returned is 0 if no
     * buffer was filled, and otherwise leaves out the bytes in the one that was begun.
     */
    method Load(data: seq<byte>) returns (loaded: nat)
      requires Valid()
      modifies this
      ensures Valid()
      ensures accepted == old(accepted) + Cut(data, old(Free())) && delivered == old(delivered)
      ensures old(Idle()) ==> (started <==> 0 < |data| < RX_BUFFER_SIZE)
      ensures !old(Idle()) ==> started == old(started) && hasRead == old(hasRead)
                               && Free() == old(Free()) - |Cut(data, old(Free()))|
      ensures !Idle()
      ensures var n := |Cut(data, old(Free()))|;
              loaded == if |old(filling)| + n < RX_BUFFER_SIZE then 0 else n - |filling|
    {
      if headSended == NULL {
        return 0;
      }
      ghost var taken;
      loaded, taken := CopyAll(data);
      assert data[..taken] == Cut(data, old(Free()));
      Kick();
    }

    static lemma CutBoth(a: seq<byte>, b: seq<byte>, n: nat)
      ensures Cut(a + b, n) == Cut(a, n) + Cut(b, n - |Cut(a, n)|)
    {
    }

    /** One more load, where `before` are the bytes of the loads so far and `room` was the room for them. */
    method LoadMore(data: seq<byte>, ghost start: seq<byte>, ghost before: seq<byte>, ghost room: nat)
      requires Valid() && !Idle()
      requires accepted == start + Cut(before, room) && Free() == room - |Cut(before, room)|
      modifies this
      ensures Valid() && !Idle()
      ensures accepted == start + Cut(before + data, room) && Free() == room - |Cut(before + data, room)|
      ensures started == old(started) && hasRead == old(hasRead) && delivered == old(delivered)
    {
      CutBoth(before, data, room);
      Assoc(start, Cut(before, room), Cut(data, Free()));
      var _ := Load(data);
    }

    /**
     * Any number of loads on a driver that is not idle: together they take what there is room for, in order, and none
     * of them starts a transfer or changes one.
     */
    method LoadAll(loads: seq<seq<byte>>)
      requires Valid() && !Idle()
      modifies this
      ensures Valid() && !Idle()
      ensures accepted == old(accepted) + Cut(Flatten(loads), old(Free())) && delivered == old(delivered)
      ensures started == old(started) && hasRead == old(hasRead)
    {
      ghost var start, room := accepted, Free();
      for k := 0 to |loads|
        invariant Valid() && !Idle()
        invariant accepted == start + Cut(Flatten(loads[..k]), room)
        invariant Free() == room - |Cut(Flatten(loads[..k]), room)|
        invariant started == old(started) && hasRead == old(hasRead) && delivered == old(delivered)
      {
        FlattenAppend(loads[..k], loads[k]);
        assert loads[..k + 1] == loads[..k] + [loads[k]];
        LoadMore(loads[k], start, Flatten(loads[..k]), room);
      }
      assert loads[..|loads|] == loads;
    }

    /**
     * From idle, the first load decides for good: unless it has between 1 and 511 bytes, no transfer is started by it
     * or by any later load, and without one the host never reads (ReadDone), so that the driver has stalled.
     */
    method LoadsFromIdle(first: seq<byte>, loads: seq<seq<byte>>)
      requires Valid() && Idle()
      modifies this
      ensures Valid() && !Idle()
      ensures started <==> 0 < |first| < RX_BUFFER_SIZE
      ensures delivered == old(delivered)
    {
      var _ := Load(first);
      LoadAll(loads);
    }

    // ---------- The host has read ----------

    /** The buffer just read goes to the end of the Sended list. */
    method RecycleLinks()
      requires Lists() && toSend != []
      modifies this`headToSend, this`headSended, this`tailSended, this`toSend, this`sended, this`next
      ensures Lists()
      ensures sended == old(sended) + [old(toSend)[0]] && toSend == old(toSend)[1..]
    {
      Swapped(next, toSend, sended);
      ghost var next0 := next;
      if headSended != NULL {
        next := next[tailSended := headToSend];
        tailSended := next[tailSended];
      } else {
        tailSended := headToSend;
        headSended := tailSended;
      }
      headToSend := next[headToSend];
      next := next[tailSended := NULL];
      Relink(next0, sended, toSend, next);
      Swapped(next, sended + [toSend[0]], toSend[1..]);
      toSend, sended := toSend[1..], sended + [toSend[0]];
    }

    static lemma Swapped(next: seq<int>, a: seq<int>, b: seq<int>)
      requires TwoLists(next, a, b)
      ensures TwoLists(next, b, a)
    {
    }

    /** The host has read what the descriptor points to, and that buffer is emptied. */
    method HostReads()
      requires Consistent() && started
      modifies this`delivered, this`hasRead, this`started, this`bytes, this`queued
      ensures hasRead && !started && Conserved()
      ensures delivered == old(delivered) + old(queued)[0] && queued == old(queued)[1..]
      ensures Holding(bytes, toSend[1..], sended + [toSend[0]], queued, filling)
    {
      Assoc(delivered, queued[0], Flatten(queued[1..]));
      HoldRecycle(bytes, toSend, sended, queued, filling);
      SizesRest(queued);
      delivered := delivered + bytes[rxBuf][..rxLen];
      hasRead, started, queued := true, false, queued[1..];
      bytes := bytes[headToSend := []];
    }

    static lemma SizesRest(queued: seq<seq<byte>>)
      requires Sizes(queued) && queued != []
      ensures Sizes(queued[1..])
    {
    }

    /** And recycled. */
    method Recycle()
      requires Consistent() && started
      modifies this
      ensures Consistent() && hasRead && !started
      ensures delivered == old(delivered) + old(queued)[0] && accepted == old(accepted)
      ensures queued == old(queued)[1..] && filling == old(filling)
    {
      HostReads();
      RecycleLinks();
    }

    /**
     * sdio_read_done_process, for a transfer that was in flight: the host now has the next buffer's bytes, and the
     * driver is idle only if everything accepted has been delivered.
     */
    method ReadDone()
      requires Valid() && started
      modifies this
      ensures Valid()
      ensures delivered == old(delivered) + old(queued)[0] && accepted == old(accepted)
      ensures started <==> !Idle()
      ensures started <==> accepted != delivered
    {
      Recycle();
      if headToSend != NULL {
        TryToLoad();
      } else if headSended != NULL && bytes[headSended] != [] {
        MoveHead();
        TryToLoad();
      }
    }
  }
}
