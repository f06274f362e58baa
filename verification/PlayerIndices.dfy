/** Player indices of gamepads (PlayerIndexMap and the gamepad events in app.cpp). */
module PlayerIndices {
  import opened Common

  predicate IsFirst(index: int, free: set<int>) {
    index in free && forall i :: i in free ==> index <= i
  }

  lemma {:induction false} FindFirst(free: set<int>) returns (index: int)
    requires free != {}
    ensures IsFirst(index, free)
    decreases |free|
  {
    index := Member(free);
    var rest := free - {index};
    assert forall i :: i in free ==> i == index || i in rest;
    if rest != {} {
      var other := FindFirst(rest);
      index := if index < other then index else other;
    }
  }

  ghost function First(free: set<int>): (index: int)
    requires free != {}
    ensures IsFirst(index, free)
  {
    assert exists index :: IsFirst(index, free) by { var index := FindFirst(free); }
    var index :| IsFirst(index, free);
    index
  }

  lemma FirstIsUnique(a: int, b: int, free: set<int>)
    requires IsFirst(a, free) && IsFirst(b, free)
    ensures a == b
  {
  }

  // ----- The state of the event loop -----

  /** The two fields of the map, and the identifiers of the gamepads that are open. */
  datatype State = State(indices: map<nat, int>, free: set<int>, open: set<nat>)

  const NO_PADS := State(map[], {}, {})

  function IndexOf(indices: map<nat, int>, id: nat): int {
    if id in indices then indices[id] else -1
  }

  ghost function NewIndex(indices: map<nat, int>, free: set<int>): int {
    if free == {} then |indices| else First(free)
  }

  /** A gamepad gets a new index; a former one of the same identifier is overwritten, not freed. */
  ghost function Connect(s: State, id: nat): State {
    var index := NewIndex(s.indices, s.free);
    State(s.indices[id := index], s.free - {index}, s.open + {id})
  }

  function Disconnect(s: State, id: nat): State {
    State(s.indices - {id}, s.free + {IndexOf(s.indices, id)}, s.open - {id})
  }

  class PlayerIndexMap {
    var indices: map<nat, int>
    var free: set<int>

    constructor ()
      ensures indices == map[] && free == {}
    {
      indices, free := map[], {};
    }

    function GetPlayerIndex(id: nat): (index: int)
      reads this
      ensures index == IndexOf(indices, id)
      ensures id !in indices ==> index == -1
    {
      if id in indices then indices[id] else -1
    }

    method AssignPlayerIndex(id: nat) returns (index: int)
      modifies this
      ensures index == old(NewIndex(indices, free))
      ensures indices == old(indices)[id := index] && free == old(free) - {index}
    {
      if free == {} {
        index := |indices|;
      } else {
        ghost var first := First(free);
        index :| IsFirst(index, free);
        FirstIsUnique(index, first, free);
        free := free - {index};
      }
      indices := indices[id := index];
    }

    method GetOrAssignPlayerIndex(id: nat) returns (index: int)
      modifies this
      ensures id in old(indices) ==> index == old(indices[id]) && indices == old(indices) && free == old(free)
      ensures id !in old(indices) ==>
        && index == old(NewIndex(indices, free))
        && indices == old(indices)[id := index] && free == old(free) - {index}
    {
      if id in indices {
        return indices[id];
      }
      index := AssignPlayerIndex(id);
    }

    method ReleasePlayerIndex(id: nat) returns (index: int)
      modifies this
      ensures index == old(IndexOf(indices, id))
      ensures indices == old(indices) - {id} && free == old(free) + {index}
    {
      index := GetPlayerIndex(id);
      indices := indices - {id};
      free := free + {index};
    }
  }

  /** The part of the event loop that tracks gamepads. */
  class GamepadEvents {
    var gamepads: set<nat>
    const playerIndices: PlayerIndexMap

    ghost function View(): State
      reads this, playerIndices
    {
      State(playerIndices.indices, playerIndices.free, gamepads)
    }

    constructor ()
      ensures View() == NO_PADS && fresh(playerIndices)
    {
      gamepads := {};
      playerIndices := new PlayerIndexMap();
    }

    /** `accepted` tells whether SDL could open the gamepad. */
    method OnAdded(which: nat, accepted: bool)
      modifies this, playerIndices
      ensures View() == Next(old(View()), Added(which, accepted))
      ensures !accepted ==> View() == old(View())
      ensures accepted ==>
        && gamepads == old(gamepads) + {which}
        && playerIndices.indices.Keys == old(playerIndices.indices).Keys + {which}
        && forall id :: id in old(playerIndices.indices) && id != which ==>
             playerIndices.indices[id] == old(playerIndices.indices)[id]
    {
      if accepted {
        var index := playerIndices.AssignPlayerIndex(which);
        gamepads := gamepads + {which};
      }
    }

    method OnRemoved(which: nat)
      modifies this, playerIndices
      ensures View() == Next(old(View()), Removed(which))
      ensures which !in old(gamepads) ==> View() == old(View())
      ensures which in old(gamepads) ==>
        && gamepads == old(gamepads) - {which} && playerIndices.indices == old(playerIndices.indices) - {which}
        && playerIndices.free
           == old(playerIndices.free)
              + {if which in old(playerIndices.indices) then old(playerIndices.indices)[which] else -1}
    {
      if which in gamepads {
        var index := playerIndices.ReleasePlayerIndex(which);
        gamepads := gamepads - {which};
      }
    }
  }

  // ----- Every run of events -----

  datatype Event = Added(id: nat, accepted: bool) | Removed(id: nat)

  ghost function Next(s: State, e: Event): State {
    match e
    case Added(id, accepted) => if accepted then Connect(s, id) else s
    case Removed(id) => if id in s.open then Disconnect(s, id) else s
  }

  /** The numbers 0 .. n - 1. */
  function Interval(n: nat): (r: set<int>)
    ensures forall i :: i in r <==> 0 <= i < n
  {
    if n == 0 then {} else Interval(n - 1) + {n - 1}
  }

  ghost predicate Injective<K, V>(m: map<K, V>) {
    forall a, b :: a in m && b in m && m[a] == m[b] ==> a == b
  }

  lemma ValuesWith<K, V>(m: map<K, V>, k: K, v: V)
    requires k !in m
    ensures m[k := v].Values == m.Values + {v}
    ensures Injective(m) && v !in m.Values ==> Injective(m[k := v])
  {
    var r := m[k := v];
    forall x | x in m.Values + {v}
      ensures x in r.Values
    {
      if x in m.Values {
        var a :| a in m && m[a] == x;
        assert a in r && r[a] == x;
      } else {
        assert k in r && r[k] == x;
      }
    }
  }

  lemma ValuesWithout<K, V>(m: map<K, V>, k: K)
    requires k in m && Injective(m)
    ensures (m - {k}).Values == m.Values - {m[k]} && Injective(m - {k})
  {
    var r := m - {k};
    forall x | x in m.Values - {m[k]}
      ensures x in r.Values
    {
      var a :| a in m && m[a] == x;
      assert a in r && r[a] == x;
    }
  }

  /** Open gamepads have distinct indices, and assigned and free indices divide 0 .. peak - 1 between them. */
  ghost predicate Partition(s: State, peak: nat) {
    && s.indices.Keys == s.open
    && Injective(s.indices)
    && s.indices.Values !! s.free
    && s.indices.Values + s.free == Interval(peak)
  }

  lemma {:induction false} InjectiveSize<K, V>(m: map<K, V>)
    requires Injective(m)
    ensures |m.Values| == |m|
    decreases |m|
  {
    if m != map[] {
      var id := Member(m.Keys);
      ValuesWithout(m, id);
      InjectiveSize(m - {id});
    }
  }

  lemma {:induction false} IntervalSize(n: nat)
    ensures |Interval(n)| == n
  {
    if n > 0 {
      IntervalSize(n - 1);
    }
  }

  lemma PartitionSize(s: State, peak: nat)
    requires Partition(s, peak)
    ensures |s.open| + |s.free| == peak
  {
    InjectiveSize(s.indices);
    IntervalSize(peak);
    assert |s.indices.Keys| == |s.indices|;
  }

  /** A new gamepad gets the smallest index no open gamepad has. */
  lemma NewIndexIsSmallestUnused(s: State, peak: nat)
    requires Partition(s, peak)
    ensures var index := NewIndex(s.indices, s.free);
            && 0 <= index && index !in s.indices.Values
            && forall i :: 0 <= i < index ==> i in s.indices.Values
  {
    PartitionSize(s, peak);
    assert |s.indices.Keys| == |s.indices|;
    var index := NewIndex(s.indices, s.free);
    if s.free != {} {
      assert index in Interval(peak);
    }
    forall i | 0 <= i < index
      ensures i in s.indices.Values
    {
      assert i in Interval(peak);
    }
  }

  /** Connecting keeps the partition exactly when the identifier is new. */
  lemma ConnectExactly(s: State, peak: nat, id: nat)
    requires Partition(s, peak)
    ensures Partition(Connect(s, id), Max(peak, |s.open + {id}|)) <==> id !in s.open
  {
    if id in s.open {
      ReconnectLosesIndex(s, peak, id);
      PartitionSize(s, peak);
    } else {
      ConnectFresh(s, peak, id);
    }
  }

  lemma ConnectFresh(s: State, peak: nat, id: nat)
    requires Partition(s, peak) && id !in s.open
    ensures Partition(Connect(s, id), Max(peak, |s.open + {id}|))
  {
    NewIndexIsSmallestUnused(s, peak);
    OpenAfterConnect(s, peak, id);
    NewIndexInInterval(s, peak);
    GivenIndex(s, peak, id, NewIndex(s.indices, s.free), PeakAfterConnect(s, peak));
  }

  function PeakAfterConnect(s: State, peak: nat): nat {
    if s.free == {} then peak + 1 else peak
  }

  lemma NewIndexInInterval(s: State, peak: nat)
    requires Partition(s, peak)
    ensures Interval(PeakAfterConnect(s, peak)) == Interval(peak) + {NewIndex(s.indices, s.free)}
  {
    if s.free == {} {
      NextIndex(s, peak);
    } else {
      FreeIndex(s, peak);
      AlreadyIn(Interval(peak), NewIndex(s.indices, s.free));
    }
  }

  lemma FreeIndex(s: State, peak: nat)
    requires Partition(s, peak) && s.free != {}
    ensures NewIndex(s.indices, s.free) in Interval(peak)
  {
    assert NewIndex(s.indices, s.free) in s.indices.Values + s.free;
  }

  lemma AlreadyIn(s: set<int>, i: int)
    requires i in s
    ensures s + {i} == s
  {
  }

  lemma NextIndex(s: State, peak: nat)
    requires Partition(s, peak) && s.free == {}
    ensures NewIndex(s.indices, s.free) == peak
  {
    PartitionSize(s, peak);
    assert |s.indices.Keys| == |s.indices|;
  }

  /** Taking over a free index, or the next index when none is free. */
  lemma GivenIndex(s: State, peak: nat, id: nat, index: int, peak': nat)
    requires Partition(s, peak) && id !in s.open && index !in s.indices.Values
    requires Interval(peak') == Interval(peak) + {index}
    ensures Partition(State(s.indices[id := index], s.free - {index}, s.open + {id}), peak')
  {
    ValuesWith(s.indices, id, index);
    assert s.indices[id := index].Keys == s.indices.Keys + {id};
    assert (s.indices.Values + {index}) + (s.free - {index}) == s.indices.Values + s.free + {index};
  }

  lemma OpenAfterConnect(s: State, peak: nat, id: nat)
    requires Partition(s, peak) && id !in s.open
    ensures Max(peak, |s.open + {id}|) == PeakAfterConnect(s, peak)
  {
    PartitionSize(s, peak);
    assert |s.open + {id}| == |s.open| + 1;
    assert s.free != {} ==> |s.free| > 0;
  }

  lemma ReconnectLosesIndex(s: State, peak: nat, id: nat)
    requires Partition(s, peak) && id in s.open
    ensures s.open + {id} == s.open
    ensures !Partition(Connect(s, id), peak)
  {
    NewIndexIsSmallestUnused(s, peak);
    var index, lost, r := NewIndex(s.indices, s.free), s.indices[id], Connect(s, id);
    assert lost in s.indices.Values && lost in s.indices.Values + s.free;
    OverwrittenValue(s.indices, id, index);
    assert lost !in r.indices.Values + r.free;
  }

  /** Overwriting the only occurrence of a value with an unused one removes it. */
  lemma OverwrittenValue<K, V>(m: map<K, V>, k: K, v: V)
    requires k in m && Injective(m) && v !in m.Values
    ensures m[k] !in m[k := v].Values
  {
    ValuesWithout(m, k);
    ValuesWith(m - {k}, k, v);
    assert m[k := v] == (m - {k})[k := v];
    assert m[k] in m.Values;
  }

  /** Releasing keeps it exactly when the identifier is known: the guard of the removed event is needed. */
  lemma DisconnectExactly(s: State, peak: nat, id: nat)
    requires Partition(s, peak)
    ensures Partition(Disconnect(s, id), peak) <==> id in s.open
  {
    var r := Disconnect(s, id);
    if id in s.open {
      ValuesWithout(s.indices, id);
      assert s.indices[id] in s.indices.Values;
    } else {
      assert -1 in r.free && -1 !in Interval(peak);
    }
  }

  ghost function After(s: State, events: seq<Event>): State
    decreases |events|
  {
    if events == [] then s else After(Next(s, events[0]), events[1..])
  }

  /** The largest number of gamepads open at the same time, starting from `peak`. */
  ghost function Peak(s: State, events: seq<Event>, peak: nat): nat
    decreases |events|
  {
    if events == [] then peak
    else Peak(Next(s, events[0]), events[1..], Max(peak, |Next(s, events[0]).open|))
  }

  /** Identifiers of added gamepads are not in use. */
  ghost predicate FreshAdds(s: State, events: seq<Event>)
    decreases |events|
  {
    events != [] ==>
      && (events[0].Added? && events[0].accepted ==> events[0].id !in s.open)
      && FreshAdds(Next(s, events[0]), events[1..])
  }

  /** Over every run indices stay distinct, and with the free ones make up 0 .. the peak number of pads - 1. */
  lemma {:induction false} EveryRunPartitions(s: State, events: seq<Event>, peak: nat)
    requires Partition(s, peak) && FreshAdds(s, events)
    ensures Partition(After(s, events), Peak(s, events, peak))
    decreases |events|
  {
    if events != [] {
      match events[0] {
        case Added(id, accepted) => AddedKeeps(s, peak, id, accepted);
        case Removed(id) => RemovedKeeps(s, peak, id);
      }
      var r := Next(s, events[0]);
      EveryRunPartitions(r, events[1..], Max(peak, |r.open|));
    }
  }

  lemma SubsetSize(a: set<nat>, b: set<nat>)
    requires a <= b
    ensures |a| <= |b|
  {
    assert b == a + (b - a);
  }

  // ----- What a list of events leads to -----

  /** The gamepads that were added, when they could be opened, and not removed since. */
  function OpenPads(events: seq<Event>): set<nat> {
    set i | 0 <= i < |events| && events[i].Added? && events[i].accepted
            && (forall j :: i < j < |events| ==> events[j] != Removed(events[i].id)) :: events[i].id
  }

  /** The largest number of gamepads open at the same time. */
  function MostPads(events: seq<Event>): nat {
    if events == [] then 0 else Max(MostPads(events[..|events| - 1]), |OpenPads(events)|)
  }

  /** No gamepad is added while it is open. */
  predicate NoneAddedTwice(events: seq<Event>) {
    forall i :: 0 <= i < |events| && events[i].Added? && events[i].accepted ==>
      events[i].id !in OpenPads(events[..i])
  }

  lemma OpenPadsAdded(events: seq<Event>, id: nat, accepted: bool)
    ensures OpenPads(events + [Added(id, accepted)]) == if accepted then OpenPads(events) + {id} else OpenPads(events)
  {
    var longer := events + [Added(id, accepted)];
    forall x | x in OpenPads(events)
      ensures x in OpenPads(longer)
    {
      var i :| 0 <= i < |events| && events[i] == Added(x, true)
               && forall j :: i < j < |events| ==> events[j] != Removed(x);
      assert longer[i] == events[i];
    }
    if accepted {
      assert longer[|events|] == Added(id, true);
    }
    forall x | x in OpenPads(longer)
      ensures x in OpenPads(events) || (accepted && x == id)
    {
      var i :| 0 <= i < |longer| && longer[i] == Added(x, true)
               && forall j :: i < j < |longer| ==> longer[j] != Removed(x);
      if i < |events| {
        assert forall j :: i < j < |events| ==> events[j] == longer[j];
        assert events[i] == longer[i];
      }
    }
  }

  lemma OpenPadsRemoved(events: seq<Event>, id: nat)
    ensures OpenPads(events + [Removed(id)]) == OpenPads(events) - {id}
  {
    var longer := events + [Removed(id)];
    forall x | x in OpenPads(events) && x != id
      ensures x in OpenPads(longer)
    {
      var i :| 0 <= i < |events| && events[i] == Added(x, true)
               && forall j :: i < j < |events| ==> events[j] != Removed(x);
      assert longer[i] == events[i];
    }
    forall x | x in OpenPads(longer)
      ensures x in OpenPads(events) && x != id
    {
      var i :| 0 <= i < |longer| && longer[i] == Added(x, true)
               && forall j :: i < j < |longer| ==> longer[j] != Removed(x);
      assert longer[|events|] == Removed(id) && i < |events|;
      assert forall j :: i < j < |events| ==> events[j] == longer[j];
      assert events[i] == longer[i];
    }
  }

  lemma {:induction false} AfterOneMore(s: State, events: seq<Event>, e: Event)
    ensures After(s, events + [e]) == Next(After(s, events), e)
    decreases |events|
  {
    if events == [] {
      assert [e][1..] == [] && [] + [e] == [e];
    } else {
      assert (events + [e])[1..] == events[1..] + [e];
      AfterOneMore(Next(s, events[0]), events[1..], e);
    }
  }

  lemma NoneAddedTwiceBefore(events: seq<Event>)
    requires events != [] && NoneAddedTwice(events)
    ensures NoneAddedTwice(events[..|events| - 1])
  {
    var init := events[..|events| - 1];
    assert forall i :: 0 <= i < |init| ==> init[..i] == events[..i];
  }

  /**
   Over every list of events in which no gamepad is added while it is open: the open gamepads are those added and
   not removed since, their indices are distinct, and with the free ones make up 0 .. the largest number of gamepads
   open at the same time - 1.
   */
  lemma {:induction false} RunsFromNoPadsPartition(events: seq<Event>)
    requires NoneAddedTwice(events)
    ensures After(NO_PADS, events).open == OpenPads(events)
    ensures Partition(After(NO_PADS, events), MostPads(events))
    decreases |events|
  {
    if events != [] {
      var init, e := events[..|events| - 1], events[|events| - 1];
      assert events == init + [e];
      NoneAddedTwiceBefore(events);
      RunsFromNoPadsPartition(init);
      AfterOneMore(NO_PADS, init, e);
      OneMorePartitions(After(NO_PADS, init), MostPads(init), init, e);
    }
  }

  lemma OneMorePartitions(s: State, most: nat, init: seq<Event>, e: Event)
    requires Partition(s, most) && s.open == OpenPads(init)
    requires e.Added? && e.accepted ==> e.id !in OpenPads(init)
    ensures Next(s, e).open == OpenPads(init + [e])
    ensures Partition(Next(s, e), Max(most, |OpenPads(init + [e])|))
  {
    match e
    case Added(id, accepted) => AddedPartitions(s, most, init, id, accepted);
    case Removed(id) => RemovedPartitions(s, most, init, id);
  }

  lemma AddedPartitions(s: State, most: nat, init: seq<Event>, id: nat, accepted: bool)
    requires Partition(s, most) && s.open == OpenPads(init)
    requires accepted ==> id !in OpenPads(init)
    ensures Next(s, Added(id, accepted)).open == OpenPads(init + [Added(id, accepted)])
    ensures Partition(Next(s, Added(id, accepted)), Max(most, |OpenPads(init + [Added(id, accepted)])|))
  {
    OpenPadsAdded(init, id, accepted);
    AddedKeeps(s, most, id, accepted);
  }

  lemma RemovedPartitions(s: State, most: nat, init: seq<Event>, id: nat)
    requires Partition(s, most) && s.open == OpenPads(init)
    ensures Next(s, Removed(id)).open == OpenPads(init + [Removed(id)])
    ensures Partition(Next(s, Removed(id)), Max(most, |OpenPads(init + [Removed(id)])|))
  {
    OpenPadsRemoved(init, id);
    RemovedKeeps(s, most, id);
  }

  lemma AddedKeeps(s: State, most: nat, id: nat, accepted: bool)
    requires Partition(s, most) && (accepted ==> id !in s.open)
    ensures var r := Next(s, Added(id, accepted));
            r.open == (if accepted then s.open + {id} else s.open) && Partition(r, Max(most, |r.open|))
  {
    PartitionSize(s, most);
    if accepted {
      ConnectExactly(s, most, id);
    }
  }

  lemma RemovedKeeps(s: State, most: nat, id: nat)
    requires Partition(s, most)
    ensures var r := Next(s, Removed(id)); r.open == s.open - {id} && Partition(r, Max(most, |r.open|))
  {
    PartitionSize(s, most);
    DisconnectExactly(s, most, id);
    SubsetSize(s.open - {id}, s.open);
    assert id !in s.open ==> s.open - {id} == s.open;
  }

  /** An added gamepad gets the smallest index that no open one has, and the others keep theirs. */
  lemma AddedGetsSmallestUnused(s: State, peak: nat, id: nat)
    requires Partition(s, peak) && id !in s.open
    ensures var r := Next(s, Added(id, true));
            && r.open == s.open + {id} && r.indices.Keys == r.open
            && (forall other :: other in s.open ==> r.indices[other] == s.indices[other])
            && r.indices[id] >= 0 && r.indices[id] !in s.indices.Values
            && forall i :: 0 <= i < r.indices[id] ==> i in s.indices.Values
  {
    NewIndexIsSmallestUnused(s, peak);
  }

  /** Adding an open gamepad again loses its index, and the next one gets an index twice. */
  lemma RepeatedAddSharesIndex(id: nat, other: nat)
    requires id != other
    ensures var s := After(NO_PADS, [Added(id, true), Added(id, true), Added(other, true)]);
            id in s.indices && other in s.indices && s.indices[id] == s.indices[other] == 1
  {
    var events := [Added(id, true), Added(id, true), Added(other, true)];
    var s1 := Connect(NO_PADS, id);
    assert s1 == State(map[id := 0], {}, {id});
    var s2 := Connect(s1, id);
    assert s2 == State(map[id := 1], {}, {id});
    var s3 := Connect(s2, other);
    assert s3.indices == map[id := 1, other := 1];
    assert After(NO_PADS, events) == After(s1, events[1..]) == After(s2, events[1..][1..]) == s3;
  }
}
