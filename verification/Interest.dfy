/** yvent/Channel.h and yvent/Poll.cpp: a channel's event flags, its registration
    state and the kernel's interest table. */
module Interest {
  import opened Bytes

  /** `read` stands for EPOLLIN | EPOLLPRI, `write` for EPOLLOUT. */
  datatype Events = Events(read: bool, write: bool)

  const NO_EVENTS := Events(false, false)

  datatype Registration = New | Added | Deleted

  /** One channel together with the kernel's entry for its descriptor. `refused` counts the
      `epoll_ctl` calls the kernel turned down: an add of a present descriptor, a change or
      removal of an absent one. Every update of a deleted channel is among them. */
  datatype Watch = Watch(events: Events, reg: Registration, entry: Option<Events>, refused: nat)

  /** `Poll::updateChannel` and the `epoll_ctl` it issues, on one descriptor. */
  function Update(w: Watch): Watch {
    if w.reg.New? then
      var added := w.(reg := Added);
      if w.entry.None? then added.(entry := Some(w.events)) else added.(refused := w.refused + 1)
    else if w.events == NO_EVENTS then
      var deleted := w.(reg := Deleted);
      if w.entry.Some? then deleted.(entry := None) else deleted.(refused := w.refused + 1)
    else
      if w.entry.Some? then w.(entry := Some(w.events)) else w.(refused := w.refused + 1)
  }

  function EnableRead(w: Watch): Watch { Update(w.(events := w.events.(read := true))) }
  function EnableWrite(w: Watch): Watch { Update(w.(events := w.events.(write := true))) }
  function DisableWrite(w: Watch): Watch { Update(w.(events := w.events.(write := false))) }
  function DisableAll(w: Watch): Watch { Update(w.(events := NO_EVENTS)) }

  /** The kernel mirrors the channel and has never refused a call. */
  predicate Mirrored(w: Watch) {
    && w.refused == 0
    && (w.entry.Some? <==> w.reg.Added?)
    && (w.reg.Added? ==> w.entry == Some(w.events) && w.events != NO_EVENTS)
  }

  /** The kernel's side: what each descriptor is watched for. */
  class Poll {
    var table: map<int, Events>

    constructor ()
      ensures table == map[]
    {
      table := map[];
    }
  }

  class Channel {
    const fd: int
    const poll: Poll
    var events: Events
    var reg: Registration
    ghost var refused: nat

    constructor (poll: Poll, fd: int)
      ensures this.poll == poll && this.fd == fd && events == NO_EVENTS && reg == New && refused == 0
    {
      this.poll := poll;
      this.fd := fd;
      events := NO_EVENTS;
      reg := New;
      refused := 0;
    }

    ghost function View(): Watch
      reads this, poll
    {
      Watch(events, reg, if fd in poll.table then Some(poll.table[fd]) else None, refused)
    }

    /** Only this channel's row of the table may change. */
    twostate predicate OtherRowsKept()
      reads this, poll
    {
      forall d :: d != fd ==>
                    (d in poll.table <==> d in old(poll.table)) &&
                    (d in poll.table ==> poll.table[d] == old(poll.table[d]))
    }

    method UpdateChannel()
      requires reg.New? ==> events != NO_EVENTS
      modifies this`reg, this`refused, poll
      ensures View() == Update(old(View()))
      ensures OtherRowsKept()
    {
      if reg.New? {
        reg := Added;
        if fd in poll.table { refused := refused + 1; } else { poll.table := poll.table[fd := events]; }
      } else if events == NO_EVENTS {
        reg := Deleted;
        if fd in poll.table { poll.table := poll.table - {fd}; } else { refused := refused + 1; }
      } else {
        if fd in poll.table { poll.table := poll.table[fd := events]; } else { refused := refused + 1; }
      }
    }

    method EnableReading()
      modifies this, poll
      ensures View() == EnableRead(old(View()))
      ensures OtherRowsKept()
    {
      events := events.(read := true);
      UpdateChannel();
    }

    method EnableWriting()
      modifies this, poll
      ensures View() == EnableWrite(old(View()))
      ensures OtherRowsKept()
    {
      events := events.(write := true);
      UpdateChannel();
    }

    method DisableWriting()
      requires reg.New? ==> events.read
      modifies this, poll
      ensures View() == DisableWrite(old(View()))
      ensures OtherRowsKept()
    {
      events := events.(write := false);
      UpdateChannel();
    }

    method DisableEverything()
      requires !reg.New?
      modifies this, poll
      ensures View() == DisableAll(old(View()))
      ensures OtherRowsKept()
    {
      events := NO_EVENTS;
      UpdateChannel();
    }
  }
}
