/** The epoll registry: which channels the poller's map and the kernel's interest set hold, and what a channel's index
    says about it. */
module Pollers {

  const K_NONE_EVENT: int := 0
  const K_NEW: int := -1
  const K_ADDED: int := 1
  const K_DELETED: int := 2

  class Channel {
    const m_nSockfd: int
    var m_nEvents: int
    var m_nIndex: int

    constructor (fd: int)
      ensures m_nSockfd == fd && m_nEvents == K_NONE_EVENT && m_nIndex == K_NEW
    {
      m_nSockfd, m_nEvents, m_nIndex := fd, K_NONE_EVENT, K_NEW;
    }

    predicate IsNoneEvent()
      reads this
    {
      m_nEvents == K_NONE_EVENT
    }
  }

  datatype Operation = Add | Del | Mod

  /** What the kernel holds for a descriptor: the channel to report and the events of interest. */
  datatype Interest = Interest(channel: Channel, events: int)

  /** What `epoll_wait` reports. */
  datatype Report = Report(channel: Channel, revents: int)

  /** The map, the kernel's set, and the index and mask of every channel. */
  datatype Registry = Registry(
    mapChannels: map<int, Channel>,
    kernel: map<int, Interest>,
    index: map<Channel, int>,
    mask: map<Channel, int>
  )

  // ---------------------------------------------------------------- the operations

  predicate Mapped(r: Registry, c: Channel) {
    c.m_nSockfd in r.mapChannels && r.mapChannels[c.m_nSockfd] == c
  }

  predicate Knows(r: Registry, c: Channel) {
    c in r.index && c in r.mask
  }

  /** `epoll_ctl` knows a descriptor once: it adds only an absent one and changes or deletes only a present one, and
      it may also refuse for reasons of its own. */
  predicate KernelTakes(r: Registry, op: Operation, c: Channel, accepts: bool) {
    accepts && (op == Add <==> c.m_nSockfd !in r.kernel)
  }

  function Ctl(r: Registry, op: Operation, c: Channel, accepts: bool): Registry
    requires Knows(r, c)
  {
    if !KernelTakes(r, op, c, accepts) then r
    else if op == Del then r.(kernel := r.kernel - {c.m_nSockfd})
    else r.(kernel := r.kernel[c.m_nSockfd := Interest(c, r.mask[c])])
  }

  /** The update enters the channel into the kernel's set: it is new and its descriptor is free, or it was deleted. */
  predicate Registers(r: Registry, c: Channel)
    requires Knows(r, c)
  {
    (r.index[c] == K_NEW && c.m_nSockfd !in r.mapChannels) || (r.index[c] == K_DELETED && Mapped(r, c))
  }

  function Update(r: Registry, c: Channel, accepts: bool): Registry
    requires Knows(r, c)
  {
    if Registers(r, c) then
      Ctl(r.(mapChannels := r.mapChannels[c.m_nSockfd := c], index := r.index[c := K_ADDED]), Add, c, accepts)
    else if r.index[c] != K_ADDED || !Mapped(r, c) then r
    else if r.mask[c] != K_NONE_EVENT then Ctl(r, Mod, c, accepts)
    else
      var deleted := Ctl(r, Del, c, accepts);
      if KernelTakes(r, Del, c, accepts) then deleted.(index := r.index[c := K_DELETED]) else deleted
  }

  /** Whether the update reports success. */
  predicate Updates(r: Registry, c: Channel, accepts: bool)
    requires Knows(r, c)
  {
    if Registers(r, c) then KernelTakes(r, Add, c, accepts)
    else
      && r.index[c] == K_ADDED && Mapped(r, c)
      && KernelTakes(r, if r.mask[c] == K_NONE_EVENT then Del else Mod, c, accepts)
  }

  function Remove(r: Registry, c: Channel): Registry
    requires Knows(r, c)
  {
    if !Mapped(r, c) || r.mask[c] != K_NONE_EVENT then r
    else r.(mapChannels := r.mapChannels - {c.m_nSockfd}, index := r.index[c := K_NEW])
  }

  /** The reports that are delivered: those before the first one whose channel is not in the map. */
  function Delivered(r: Registry, reports: seq<Report>): (n: nat)
    ensures n <= |reports|
  {
    if reports == [] || !Mapped(r, reports[0].channel) then 0 else 1 + Delivered(r, reports[1..])
  }

  /** Delivery writes what is reported over the channel's mask. */
  function Masks(mask: map<Channel, int>, reports: seq<Report>): map<Channel, int> {
    if reports == [] then mask
    else
      var last := reports[|reports| - 1];
      Masks(mask, reports[..|reports| - 1])[last.channel := last.revents]
  }

  /** One more report is delivered. */
  lemma DeliveryStep(r: Registry, reports: seq<Report>, i: nat)
    requires i < |reports|
    ensures Delivered(r, reports[i..])
            == if Mapped(r, reports[i].channel) then 1 + Delivered(r, reports[i + 1..]) else 0
    ensures Masks(r.mask, reports[..i + 1]) == Masks(r.mask, reports[..i])[reports[i].channel := reports[i].revents]
  {
    assert reports[i..][1..] == reports[i + 1..] && reports[..i + 1][..i] == reports[..i];
  }

  lemma DeliveryEnds(r: Registry, reports: seq<Report>)
    ensures reports[0..] == reports && Delivered(r, reports[|reports|..]) == 0 && Masks(r.mask, reports[..0]) == r.mask
  {
  }

  function Poll(r: Registry, reports: seq<Report>): Registry {
    r.(mask := Masks(r.mask, reports[..Delivered(r, reports)]))
  }

  // ---------------------------------------------------------------- what the index says

  /** A new channel is in neither place, an added one in both, a deleted one in the map only; the map has a channel
      under its own descriptor, so mapped channels have distinct descriptors. */
  ghost predicate Placed(r: Registry) {
    && r.index.Keys == r.mask.Keys
    && (forall fd | fd in r.mapChannels :: r.mapChannels[fd].m_nSockfd == fd && r.mapChannels[fd] in r.index)
    && (forall c | c in r.index :: r.index[c] == K_NEW || r.index[c] == K_ADDED || r.index[c] == K_DELETED)
    && (forall c | c in r.index :: r.index[c] == K_NEW <==> !Mapped(r, c))
    && (forall fd | fd in r.kernel ::
          fd in r.mapChannels && r.kernel[fd].channel == r.mapChannels[fd] && r.index[r.mapChannels[fd]] == K_ADDED)
    && (forall c | c in r.index && r.index[c] == K_ADDED :: c.m_nSockfd in r.kernel)
  }

  /** Added channels have something to wait for, so none of them can be removed. */
  ghost predicate Waiting(r: Registry) {
    Placed(r) && forall c | c in r.index && r.index[c] == K_ADDED :: r.mask[c] != K_NONE_EVENT
  }

  /** The update keeps what the indexes say exactly if the kernel does not refuse a channel it is asked to add. */
  lemma UpdateKeepsPlacedIff(r: Registry, c: Channel, accepts: bool)
    requires Placed(r) && Knows(r, c)
    ensures Placed(Update(r, c, accepts)) <==> (Registers(r, c) ==> accepts)
  {
    if Registers(r, c) {
      if accepts {
        RegisterKeepsPlaced(r, c);
      } else {
        var after := Update(r, c, accepts);
        assert after.index[c] == K_ADDED && c.m_nSockfd !in r.kernel;
      }
    } else {
      UpdateInPlace(r, c, accepts);
    }
  }

  lemma RegisterKeepsPlaced(r: Registry, c: Channel)
    requires Placed(r) && Knows(r, c) && Registers(r, c)
    ensures Placed(Update(r, c, true))
  {
    hide Update, Registers;
    RegisterIs(r, c);
    var fd := c.m_nSockfd;
    var after := Update(r, c, true);
    forall d | d in after.index ensures Mapped(after, d) <==> after.index[d] != K_NEW {
      assert d.m_nSockfd == fd && d != c ==> !Mapped(r, d);
    }
  }

  lemma RegisterIs(r: Registry, c: Channel)
    requires Placed(r) && Knows(r, c) && Registers(r, c)
    ensures var fd := c.m_nSockfd;
            && fd !in r.kernel && (fd in r.mapChannels ==> r.mapChannels[fd] == c)
            && Update(r, c, true)
               == Registry(r.mapChannels[fd := c], r.kernel[fd := Interest(c, r.mask[c])], r.index[c := K_ADDED],
                   r.mask)
  {
  }

  lemma UpdateInPlace(r: Registry, c: Channel, accepts: bool)
    requires Placed(r) && Knows(r, c) && !Registers(r, c)
    ensures Placed(Update(r, c, accepts))
  {}

  /** Removal keeps what the indexes say exactly if it does not meet an added channel with an empty mask. */
  lemma RemoveKeepsPlacedIff(r: Registry, c: Channel)
    requires Placed(r) && Knows(r, c)
    ensures Placed(Remove(r, c)) <==> !(r.index[c] == K_ADDED && r.mask[c] == K_NONE_EVENT)
  {
    var after := Remove(r, c);
    if Mapped(r, c) && r.mask[c] == K_NONE_EVENT {
      if r.index[c] == K_ADDED {
        assert c.m_nSockfd in after.kernel && c.m_nSockfd !in after.mapChannels;
      } else {
        assert c.m_nSockfd !in r.kernel;
      }
    }
  }

  /** A mask change is followed at once by the update. */
  function Change(r: Registry, c: Channel, events: int, accepts: bool): Registry
    requires Knows(r, c)
  {
    Update(r.(mask := r.mask[c := events]), c, accepts)
  }

  /** What a mask change must meet: a channel that gets registered needs a mask and the kernel's consent, one that is
      deregistered the kernel's consent. */
  predicate SafeChange(r: Registry, c: Channel, events: int, accepts: bool)
    requires Knows(r, c)
  {
    if Registers(r, c) then accepts && events != K_NONE_EVENT
    else r.index[c] == K_ADDED && events == K_NONE_EVENT ==> accepts
  }

  /** A new mask alone changes nothing of what the indexes say. */
  lemma MaskLeavesPlaced(r: Registry, c: Channel, events: int)
    requires Placed(r) && Knows(r, c)
    ensures var changed := r.(mask := r.mask[c := events]);
            Placed(changed) && Knows(changed, c) && Registers(changed, c) == Registers(r, c)
  {
    var changed := r.(mask := r.mask[c := events]);
    assert forall d: Channel :: Mapped(changed, d) == Mapped(r, d);
  }

  /** What an update does to index and kernel while the indexes are right. */
  lemma UpdateEffect(r: Registry, c: Channel, accepts: bool)
    requires Placed(r) && Knows(r, c)
    ensures var after, fd := Update(r, c, accepts), c.m_nSockfd;
            && after.mask == r.mask
            && after.index == (if Registers(r, c) then r.index[c := K_ADDED]
                               else if r.index[c] == K_ADDED && accepts && r.mask[c] == K_NONE_EVENT
                                    then r.index[c := K_DELETED]
                               else r.index)
            && after.kernel == (if !accepts then r.kernel
                                else if Registers(r, c) || (r.index[c] == K_ADDED && r.mask[c] != K_NONE_EVENT)
                                     then r.kernel[fd := Interest(c, r.mask[c])]
                                else if r.index[c] == K_ADDED then r.kernel - {fd} else r.kernel)
  {
    hide Mapped;
    IndexMeansMapped(r, c);
  }

  lemma IndexMeansMapped(r: Registry, c: Channel)
    requires Placed(r) && Knows(r, c)
    ensures r.index[c] == K_ADDED ==> Mapped(r, c) && c.m_nSockfd in r.kernel && r.kernel[c.m_nSockfd].channel == c
    ensures Registers(r, c) ==> c.m_nSockfd !in r.kernel
    ensures r.index[c] == K_DELETED ==> Mapped(r, c)
    ensures r.index[c] == K_ADDED ==> !Registers(r, c)
  {
  }

  lemma ChangeKeepsWaitingIff(r: Registry, c: Channel, events: int, accepts: bool)
    requires Waiting(r) && Knows(r, c)
    ensures Waiting(Change(r, c, events, accepts)) <==> SafeChange(r, c, events, accepts)
  {
    hide Placed, Update, Registers;
    var changed := r.(mask := r.mask[c := events]);
    MaskLeavesPlaced(r, c, events);
    UpdateKeepsPlacedIff(changed, c, accepts);
    UpdateEffect(changed, c, accepts);
    IndexMeansMapped(changed, c);
    var after := Update(changed, c, accepts);
    if !SafeChange(r, c, events, accepts) && Placed(after) {
      assert after.index[c] == K_ADDED && after.mask[c] == K_NONE_EVENT;
    }
  }

  /** A channel other than `c` is where it was, with the index and the mask it had. */
  ghost predicate OthersStay(r: Registry, after: Registry, c: Channel) {
    && after.index.Keys == r.index.Keys && after.mask.Keys == r.mask.Keys
    && (forall d | d in r.index && d != c :: after.index[d] == r.index[d])
    && (forall d | d in r.mask && d != c :: after.mask[d] == r.mask[d])
    && (forall fd | fd != c.m_nSockfd :: fd in after.mapChannels <==> fd in r.mapChannels)
    && (forall fd | fd in r.mapChannels && fd != c.m_nSockfd :: after.mapChannels[fd] == r.mapChannels[fd])
    && (forall fd | fd != c.m_nSockfd :: fd in after.kernel <==> fd in r.kernel)
    && (forall fd | fd in r.kernel && fd != c.m_nSockfd :: after.kernel[fd] == r.kernel[fd])
  }

  /** A mask change that the kernel accepts takes effect: a channel whose descriptor is free, or its own, waits for
      the new events; an added one with nothing left to wait for leaves the kernel and stays mapped; a channel whose
      descriptor another one holds gets nothing but the mask. */
  lemma ChangeTakesEffect(r: Registry, c: Channel, events: int)
    requires Placed(r) && Knows(r, c)
    ensures var after, changed, fd := Change(r, c, events, true), r.(mask := r.mask[c := events]), c.m_nSockfd;
            && OthersStay(r, after, c) && after.mask[c] == events
            && (Mapped(r, c) || fd !in r.mapChannels ==> Updates(changed, c, true) && Mapped(after, c))
            && (Mapped(r, c) || fd !in r.mapChannels ==>
                  if r.index[c] == K_ADDED && events == K_NONE_EVENT
                  then after.index[c] == K_DELETED && fd !in after.kernel
                  else after.index[c] == K_ADDED && fd in after.kernel && after.kernel[fd] == Interest(c, events))
            && (fd in r.mapChannels && !Mapped(r, c) ==> after == changed && !Updates(changed, c, true))
  {
    hide Ctl, Placed, Update, Updates, KernelTakes, OthersStay;
    MaskLeavesPlaced(r, c, events);
    var changed := r.(mask := r.mask[c := events]);
    IndexMeansMapped(changed, c);
    UpdateEffect(changed, c, true);
    UpdateMap(changed, c, true);
    UpdatesWhen(changed, c);
    NotAddedOutside(r, c);
    ChangeSpares(r, c, events);
    WhenMapped(r, c, events);
  }

  lemma WhenMapped(r: Registry, c: Channel, events: int)
    requires Knows(r, c)
    ensures var changed := r.(mask := r.mask[c := events]);
            Mapped(changed, c) == Mapped(r, c) && Registers(changed, c) == Registers(r, c)
  {
  }

  /** Under right indexes an accepting kernel lets every update succeed but that of a channel whose descriptor another
      has. */
  lemma UpdatesWhen(r: Registry, c: Channel)
    requires Placed(r) && Knows(r, c)
    ensures Updates(r, c, true) <==> Mapped(r, c) || c.m_nSockfd !in r.mapChannels
  {
    NotAddedOutside(r, c);
  }

  lemma ChangeSpares(r: Registry, c: Channel, events: int)
    requires Placed(r) && Knows(r, c)
    ensures OthersStay(r, Change(r, c, events, true), c)
  {
    hide Ctl, Placed, Update, KernelTakes, Registers;
    MaskLeavesPlaced(r, c, events);
    var changed := r.(mask := r.mask[c := events]);
    UpdateEffect(changed, c, true);
    UpdateMap(changed, c, true);
  }

  lemma UpdateMap(r: Registry, c: Channel, accepts: bool)
    requires Knows(r, c)
    ensures Update(r, c, accepts).mapChannels
            == if Registers(r, c) then r.mapChannels[c.m_nSockfd := c] else r.mapChannels
  {
  }

  lemma NotAddedOutside(r: Registry, c: Channel)
    requires Placed(r) && Knows(r, c)
    ensures !Mapped(r, c) ==> r.index[c] == K_NEW
    ensures Mapped(r, c) ==> r.index[c] == K_ADDED || r.index[c] == K_DELETED
    ensures r.index[c] != K_ADDED && Mapped(r, c) ==> c.m_nSockfd !in r.kernel
    ensures c.m_nSockfd !in r.mapChannels ==> c.m_nSockfd !in r.kernel
  {
  }

  /** A change the kernel refuses alters nothing but the mask, and the index of a channel it was to register. */
  lemma RefusedChange(r: Registry, c: Channel, events: int)
    requires Placed(r) && Knows(r, c)
    ensures var after, changed := Change(r, c, events, false), r.(mask := r.mask[c := events]);
            && after.kernel == r.kernel && after.mask[c] == events && !Updates(changed, c, false)
            && (!Registers(r, c) ==> after == changed)
  {
  }

  /** The ordinary end of a channel: one with nothing left to wait for is forgotten by the removal, whether it was
      added or deleted before; its index is new, its descriptor is free, and all other channels stay. */
  lemma RemoveForgets(r: Registry, c: Channel)
    requires Waiting(r) && Knows(r, c) && Mapped(r, c) && r.mask[c] == K_NONE_EVENT
    ensures var after, fd := Remove(r, c), c.m_nSockfd;
            && OthersStay(r, after, c) && after.mask[c] == r.mask[c]
            && !Mapped(after, c) && after.index[c] == K_NEW && fd !in after.mapChannels && fd !in after.kernel
  {
    NotAddedOutside(r, c);
  }

  /** ... so that the next channel with that descriptor, or the same one again, registers. */
  lemma DescriptorReused(r: Registry, c: Channel, d: Channel, events: int)
    requires Waiting(r) && Knows(r, c) && Mapped(r, c) && r.mask[c] == K_NONE_EVENT
    requires Knows(r, d) && d.m_nSockfd == c.m_nSockfd
    ensures var free := Remove(r, c);
            var changed, after := free.(mask := free.mask[d := events]), Change(free, d, events, true);
            && Updates(changed, d, true) && Mapped(after, d) && after.index[d] == K_ADDED
            && d.m_nSockfd in after.kernel && after.kernel[d.m_nSockfd] == Interest(d, events)
  {
    hide Change, Remove, Updates, Placed;
    RemoveForgets(r, c);
    RemoveKeepsWaiting(r, c);
    var free := Remove(r, c);
    FreeIsNew(free, d);
    ChangeTakesEffect(free, d, events);
  }

  lemma FreeIsNew(r: Registry, d: Channel)
    requires Waiting(r) && d in r.index && d.m_nSockfd !in r.mapChannels
    ensures r.index[d] == K_NEW && Placed(r)
  {
  }

  /** Removal does nothing to a channel that still waits for something, or that is not in the map. */
  lemma RemoveSpares(r: Registry, c: Channel)
    requires Knows(r, c) && (!Mapped(r, c) || r.mask[c] != K_NONE_EVENT)
    ensures Remove(r, c) == r
  {
  }

  lemma RemoveKeepsWaiting(r: Registry, c: Channel)
    requires Waiting(r) && Knows(r, c)
    ensures Waiting(Remove(r, c))
  {
    RemoveKeepsPlacedIff(r, c);
  }

  // ---------------------------------------------------------------- reports

  /** What one `epoll_wait` returns: registered channels, each at most once, each with some event. */
  ghost predicate Waited(r: Registry, reports: seq<Report>) {
    && (forall i | 0 <= i < |reports| ::
          && reports[i].revents != K_NONE_EVENT
          && reports[i].channel.m_nSockfd in r.kernel
          && r.kernel[reports[i].channel.m_nSockfd].channel == reports[i].channel)
    && (forall i, j | 0 <= i < j < |reports| :: reports[i].channel != reports[j].channel)
  }

  /** While indexes are right no report is dropped. */
  lemma {:induction false} AllDelivered(r: Registry, reports: seq<Report>)
    requires Placed(r) && Waited(r, reports)
    ensures Delivered(r, reports) == |reports|
  {
    if reports != [] {
      AllDelivered(r, reports[1..]);
    }
  }

  /** Delivery stops at the first report of a channel that is not in the map, and nowhere before. */
  lemma {:induction false} StopsAtFirstStale(r: Registry, reports: seq<Report>)
    ensures var n := Delivered(r, reports);
            && (forall i | 0 <= i < n :: Mapped(r, reports[i].channel))
            && (n < |reports| ==> !Mapped(r, reports[n].channel))
  {
    if reports != [] && Mapped(r, reports[0].channel) {
      StopsAtFirstStale(r, reports[1..]);
    }
  }

  lemma {:induction false} MasksAre(mask: map<Channel, int>, reports: seq<Report>)
    requires forall i | 0 <= i < |reports| :: reports[i].channel in mask
    requires forall i, j | 0 <= i < j < |reports| :: reports[i].channel != reports[j].channel
    ensures Masks(mask, reports).Keys == mask.Keys
    ensures forall i | 0 <= i < |reports| :: Masks(mask, reports)[reports[i].channel] == reports[i].revents
    ensures forall c | c in mask && (forall i | 0 <= i < |reports| :: reports[i].channel != c) ::
              Masks(mask, reports)[c] == mask[c]
  {
    if reports != [] {
      MasksAre(mask, reports[..|reports| - 1]);
    }
  }

  lemma PollKeepsWaiting(r: Registry, reports: seq<Report>)
    requires Waiting(r) && Waited(r, reports)
    ensures Waiting(Poll(r, reports))
  {
    var after := Poll(r, reports);
    AllDelivered(r, reports);
    assert reports[..|reports|] == reports;
    MasksAre(r.mask, reports);
    assert forall c: Channel :: Mapped(after, c) == Mapped(r, c);
    forall c | c in after.index && after.index[c] == K_ADDED ensures after.mask[c] != K_NONE_EVENT {
      if i :| 0 <= i < |reports| && reports[i].channel == c {
        assert after.mask[c] == reports[i].revents;
      }
    }
  }

  /** The kernel waits for what the masks say. */
  ghost predicate InSync(r: Registry) {
    Placed(r) && forall fd | fd in r.kernel :: r.kernel[fd].events == r.mask[r.kernel[fd].channel]
  }

  /** A mask change leaves kernel and masks equal exactly if the kernel does not refuse it, or it needs nothing from the
      kernel: the channel is not in its set and stays out, or the mask is the one it has. */
  lemma ChangeKeepsSyncIff(r: Registry, c: Channel, events: int, accepts: bool)
    requires InSync(r) && Knows(r, c)
    ensures InSync(Change(r, c, events, accepts))
            <==> accepts || (!Registers(r, c) && (r.index[c] == K_ADDED ==> events == r.mask[c]))
  {
    hide Placed, Update, Registers;
    var changed := r.(mask := r.mask[c := events]);
    MaskLeavesPlaced(r, c, events);
    UpdateKeepsPlacedIff(changed, c, accepts);
    UpdateEffect(changed, c, accepts);
    IndexMeansMapped(changed, c);
    KernelHasMapped(changed);
    var after := Update(changed, c, accepts);
    if r.index[c] == K_ADDED && !accepts {
      assert after.kernel == r.kernel && r.kernel[c.m_nSockfd].channel == c;
    }
  }

  /** The kernel holds every channel under its own descriptor. */
  lemma KernelHasMapped(r: Registry)
    requires Placed(r)
    ensures forall fd | fd in r.kernel :: r.kernel[fd].channel.m_nSockfd == fd && r.kernel[fd].channel in r.mask
    ensures forall fd | fd in r.kernel :: r.kernel[fd].channel in r.index && r.index[r.kernel[fd].channel] == K_ADDED
  {
  }

  /** Delivering reports leaves kernel and masks equal exactly if each channel is reported with its whole mask: the
      delivery writes the events that happened over the events the channel is interested in. */
  lemma PollKeepsSyncIff(r: Registry, reports: seq<Report>)
    requires InSync(r) && Waited(r, reports)
    ensures InSync(Poll(r, reports))
            <==> forall i | 0 <= i < |reports| :: reports[i].revents == r.mask[reports[i].channel]
  {
    var after := Poll(r, reports);
    AllDelivered(r, reports);
    assert reports[..|reports|] == reports;
    MasksAre(r.mask, reports);
    assert Placed(after) by {
      assert forall c: Channel :: Mapped(after, c) == Mapped(r, c);
    }
    if i :| 0 <= i < |reports| && reports[i].revents != r.mask[reports[i].channel] {
      var fd := reports[i].channel.m_nSockfd;
      assert r.kernel[fd].channel == reports[i].channel && after.mask[reports[i].channel] == reports[i].revents;
    } else {
      forall fd | fd in r.kernel ensures after.mask[r.kernel[fd].channel] == r.kernel[fd].events {
        var c := r.kernel[fd].channel;
        if i :| 0 <= i < |reports| && reports[i].channel == c {
          assert after.mask[c] == reports[i].revents == r.mask[c];
        }
      }
    }
  }

  /** A channel that waits for two kinds of events (1 and 4) and is reported with one of them waits, by its mask, for
      that one only, while the kernel still waits for both. */
  lemma PollOverwritesExample(c: Channel)
    ensures var fd := c.m_nSockfd;
            var r := Registry(map[fd := c], map[fd := Interest(c, 5)], map[c := K_ADDED], map[c := 5]);
            var after := Poll(r, [Report(c, 1)]);
            && InSync(r) && Waited(r, [Report(c, 1)])
            && after.mask == map[c := 1] && after.kernel[fd].events == 5 && !InSync(after)
  {
    var fd := c.m_nSockfd;
    var r := Registry(map[fd := c], map[fd := Interest(c, 5)], map[c := K_ADDED], map[c := 5]);
    var reports := [Report(c, 1)];
    assert Mapped(r, c);
    AllDelivered(r, reports);
    assert reports[..1] == reports;
    assert Masks(r.mask, reports) == Masks(r.mask, reports[..0])[c := 1];
    PollKeepsSyncIff(r, reports);
    assert reports[0].revents != r.mask[reports[0].channel];
  }

  // ---------------------------------------------------------------- runs

  datatype Event =
    | Changed(channel: Channel, events: int, accepts: bool)
    | Removed(channel: Channel)
    | Polled(reports: seq<Report>)

  ghost predicate SafeEvent(r: Registry, e: Event) {
    match e
    case Changed(c, events, accepts) => Knows(r, c) && SafeChange(r, c, events, accepts)
    case Removed(c) => Knows(r, c)
    case Polled(reports) => Waited(r, reports)
  }

  ghost function After(r: Registry, e: Event): Registry
    requires SafeEvent(r, e)
  {
    match e
    case Changed(c, events, accepts) => Change(r, c, events, accepts)
    case Removed(c) => Remove(r, c)
    case Polled(reports) => Poll(r, reports)
  }

  /** The registry at every moment of a run: each event is safe when it happens. */
  ghost predicate IsRun(states: seq<Registry>, events: seq<Event>) {
    && |states| == |events| + 1
    && forall i | 0 <= i < |events| :: SafeEvent(states[i], events[i]) && states[i + 1] == After(states[i], events[i])
  }

  /** From a poller without channels on, every moment of every such run has all indexes right. */
  lemma {:induction false} RunStaysPlaced(states: seq<Registry>, events: seq<Event>)
    requires IsRun(states, events)
    requires states[0].mapChannels == map[] && states[0].kernel == map[]
    requires states[0].index.Keys == states[0].mask.Keys
    requires forall c | c in states[0].index :: states[0].index[c] == K_NEW
    ensures forall i | 0 <= i < |states| :: Waiting(states[i])
    decreases |events|
  {
    hide Waiting, After, SafeEvent;
    var n := |events|;
    if n == 0 {
      NoChannelsWaiting(states[0]);
    } else {
      assert states[..n][0] == states[0];
      RunStaysPlaced(states[..n], events[..n - 1]);
      var r, e := states[n - 1], events[n - 1];
      assert states[..n][n - 1] == r && Waiting(r);
      EventKeepsWaiting(r, e);
      forall i | 0 <= i < |states| ensures Waiting(states[i]) {
        if i < n {
          assert states[..n][i] == states[i];
        }
      }
    }
  }

  lemma NoChannelsWaiting(r: Registry)
    requires r.mapChannels == map[] && r.kernel == map[]
    requires r.index.Keys == r.mask.Keys && forall c | c in r.index :: r.index[c] == K_NEW
    ensures Waiting(r)
  {}

  lemma EventKeepsWaiting(r: Registry, e: Event)
    requires Waiting(r) && SafeEvent(r, e)
    ensures Waiting(After(r, e))
  {
    match e
    case Changed(c, events, accepts) => ChangeKeepsWaitingIff(r, c, events, accepts);
    case Removed(c) => RemoveKeepsWaiting(r, c);
    case Polled(reports) => PollKeepsWaiting(r, reports);
  }

  /** Why a channel must be registered with a mask: without one, removal forgets the channel while the kernel keeps its
      descriptor, and the next channel with that descriptor is refused and yet marked as added. */
  lemma LeakExample(c: Channel, d: Channel)
    requires c != d && c.m_nSockfd == d.m_nSockfd
    ensures var r := Registry(map[], map[], map[c := K_NEW, d := K_NEW], map[c := K_NONE_EVENT, d := 1]);
            var leaked := Remove(Update(r, c, true), c);
            var next := Update(leaked, d, true);
            && Placed(r) && Updates(r, c, true) && leaked.mapChannels == map[] && c.m_nSockfd in leaked.kernel
            && !Updates(leaked, d, true) && next.index[d] == K_ADDED && next.kernel[d.m_nSockfd].channel == c
  {
    var fd := c.m_nSockfd;
    var r := Registry(map[], map[], map[c := K_NEW, d := K_NEW], map[c := K_NONE_EVENT, d := 1]);
    var added := Update(r, c, true);
    assert added == Registry(map[fd := c], map[fd := Interest(c, K_NONE_EVENT)], map[c := K_ADDED, d := K_NEW], r.mask);
    assert Mapped(added, c);
    assert Remove(added, c).mapChannels == map[];
  }

  // ---------------------------------------------------------------- the code

  ghost function Indexes(channels: set<Channel>): map<Channel, int>
    reads channels
  {
    map c | c in channels :: c.m_nIndex
  }

  ghost function Events(channels: set<Channel>): map<Channel, int>
    reads channels
  {
    map c | c in channels :: c.m_nEvents
  }

  lemma OwnEntry(channel: Channel, channels: set<Channel>)
    requires channel in channels
    ensures channel in Indexes(channels) && Indexes(channels)[channel] == channel.m_nIndex
    ensures channel in Events(channels) && Events(channels)[channel] == channel.m_nEvents
  {
  }

  method SetIndex(channel: Channel, index: int, ghost channels: set<Channel>)
    requires channel in channels
    modifies channel`m_nIndex
    ensures Indexes(channels) == old(Indexes(channels))[channel := index] && Events(channels) == old(Events(channels))
  {
    channel.m_nIndex := index;
  }

  /** Writes the reported events over the events of interest. */
  method SetRevents(channel: Channel, revt: int, ghost channels: set<Channel>)
    requires channel in channels
    modifies channel`m_nEvents
    ensures Events(channels) == old(Events(channels))[channel := revt] && Indexes(channels) == old(Indexes(channels))
  {
    channel.m_nEvents := revt;
  }

  class EPollPoller {
    var mapChannels: map<int, Channel>
    var kernel: map<int, Interest>
    ghost var channels: set<Channel>

    ghost function View(): Registry
      reads this, channels
    {
      Registry(mapChannels, kernel, Indexes(channels), Events(channels))
    }

    constructor ()
      ensures mapChannels == map[] && kernel == map[] && channels == {}
    {
      mapChannels, kernel, channels := map[], map[], {};
    }

    /** `epoll_ctl`, which may refuse. */
    method DoUpdate(operation: Operation, channel: Channel, accepts: bool) returns (ok: bool)
      requires channel in channels
      modifies this`kernel
      ensures ok <==> KernelTakes(old(View()), operation, channel, accepts)
      ensures View() == Ctl(old(View()), operation, channel, accepts)
    {
      var fd := channel.m_nSockfd;
      ok := accepts && (operation == Add <==> fd !in kernel);
      if ok {
        if operation == Del {
          kernel := kernel - {fd};
        } else {
          kernel := kernel[fd := Interest(channel, channel.m_nEvents)];
        }
      }
    }

    method UpdateChannel(channel: Channel, accepts: bool) returns (ok: bool)
      requires channel in channels
      modifies this`mapChannels, this`kernel, channel`m_nIndex
      ensures ok <==> Updates(old(View()), channel, accepts)
      ensures View() == Update(old(View()), channel, accepts)
    {
      hide Ctl, Indexes, Events;
      ghost var was := View();
      OwnEntry(channel, channels);
      var index := channel.m_nIndex;
      var fd := channel.m_nSockfd;
      if index == K_NEW || index == K_DELETED {
        if index == K_NEW {
          if fd in mapChannels {
            return false;
          }
          mapChannels := mapChannels[fd := channel];
        } else {
          if fd !in mapChannels {
            return false;
          }
          if mapChannels[fd] != channel {
            return false;
          }
        }
        SetIndex(channel, K_ADDED, channels);
        assert View() == was.(mapChannels := was.mapChannels[fd := channel], index := was.index[channel := K_ADDED]);
        ok := DoUpdate(Add, channel, accepts);
      } else {
        if fd !in mapChannels || mapChannels[fd] != channel || index != K_ADDED {
          return false;
        }
        if channel.IsNoneEvent() {
          ok := DoUpdate(Del, channel, accepts);
          if ok {
            SetIndex(channel, K_DELETED, channels);
          }
        } else {
          ok := DoUpdate(Mod, channel, accepts);
        }
      }
    }

    method RemoveChannel(channel: Channel)
      requires channel in channels
      modifies this`mapChannels, channel`m_nIndex
      ensures View() == Remove(old(View()), channel)
    {
      var fd := channel.m_nSockfd;
      if fd !in mapChannels {
        return;
      }
      if mapChannels[fd] != channel {
        return;
      }
      if !channel.IsNoneEvent() {
        return;
      }
      mapChannels := mapChannels - {fd};
      SetIndex(channel, K_NEW, channels);
    }

    method HasChannel(channel: Channel) returns (has: bool)
      ensures has <==> Mapped(View(), channel)
    {
      has := channel.m_nSockfd in mapChannels && mapChannels[channel.m_nSockfd] == channel;
    }

    /** Delivers reports up to the first one of a channel that is not in the map. */
    method FillActiveChannels(reports: seq<Report>) returns (activeChannels: seq<Channel>)
      requires forall i | 0 <= i < |reports| :: reports[i].channel in channels
      modifies channels`m_nEvents
      ensures View() == Poll(old(View()), reports)
      ensures |activeChannels| == Delivered(old(View()), reports)
      ensures forall i | 0 <= i < |activeChannels| :: activeChannels[i] == reports[i].channel
    {
      hide Delivered, Masks, Indexes, Events;
      activeChannels := [];
      var i := 0;
      ghost var was := View();
      DeliveryEnds(was, reports);
      while i < |reports|
        invariant 0 <= i <= |reports|
        invariant View() == was.(mask := Masks(was.mask, reports[..i]))
        invariant Delivered(was, reports) == i + Delivered(was, reports[i..])
        invariant |activeChannels| == i && forall j | 0 <= j < i :: activeChannels[j] == reports[j].channel
      {
        DeliveryStep(was, reports, i);
        var channel := reports[i].channel;
        var fd := channel.m_nSockfd;
        if fd !in mapChannels || mapChannels[fd] != channel {
          return;
        }
        SetRevents(channel, reports[i].revents, channels);
        activeChannels := activeChannels + [channel];
        i := i + 1;
      }
    }
  }
}
