/** The server's connection table: a vector of owning pointers indexed by
    file descriptor, grown when a new descriptor does not fit, and emptied
    slot by slot when a connection is closed.  A null pointer is `None`. */
module ConnectionTable {
  import opened Connections

  datatype Option<T> = None | Some(value: T)

  /** Every occupied slot holds the connection whose descriptor is its
      index, so `connections[pfd.fd]` finds the connection that pfd was
      built from. */
  predicate IndexedByFd(slots: seq<Option<Connection>>) {
    forall i :: 0 <= i < |slots| && slots[i].Some? ==> slots[i].value.fd == i
  }

  /** The table after `resize(fd + 1)` (when it is too short) followed by
      `connections[fd] = conn`. */
  function Inserted(slots: seq<Option<Connection>>, c: Connection): (r: seq<Option<Connection>>)
    requires c.fd >= 0
    ensures |r| == if |slots| <= c.fd then c.fd + 1 else |slots|
    ensures r[c.fd] == Some(c)
    ensures forall i :: 0 <= i < |r| && i != c.fd ==>
              r[i] == if i < |slots| then slots[i] else None
    ensures IndexedByFd(slots) ==> IndexedByFd(r)
  {
    var grown := if |slots| <= c.fd then slots + seq(c.fd + 1 - |slots|, _ => None) else slots;
    grown[c.fd := Some(c)]
  }

  /** The table after `connections[fd].reset()`. */
  function Removed(slots: seq<Option<Connection>>, fd: nat): (r: seq<Option<Connection>>)
    requires fd < |slots|
    ensures |r| == |slots| && r[fd] == None
    ensures forall i :: 0 <= i < |r| && i != fd ==> r[i] == slots[i]
    ensures IndexedByFd(slots) ==> IndexedByFd(r)
  {
    slots[fd := None]
  }

  /** Looking a connection up by its own descriptor finds it again. */
  lemma LookupByOwnFd(slots: seq<Option<Connection>>, i: nat)
    requires IndexedByFd(slots)
    requires i < |slots| && slots[i].Some?
    ensures 0 <= slots[i].value.fd < |slots|
    ensures slots[slots[i].value.fd] == slots[i]
  {
  }

  /** Removing a connection that was just inserted leaves no trace of it:
      every slot is as before, and the new ones are empty. */
  lemma InsertThenRemove(slots: seq<Option<Connection>>, c: Connection)
    requires c.fd >= 0
    ensures var r := Removed(Inserted(slots, c), c.fd);
            && r[..|slots|] == (if c.fd < |slots| then slots[c.fd := None] else slots)
            && forall i :: |slots| <= i < |r| ==> r[i] == None
  {
  }

  class Table {
    var slots: seq<Option<Connection>>

    /** `std::vector<std::unique_ptr<Connection>> connections;` */
    constructor ()
      ensures slots == []
      ensures IndexedByFd(slots)
    {
      slots := [];
    }

    /** Store a freshly accepted connection under its descriptor
        (accept() never hands out a negative one). */
    method Insert(c: Connection)
      requires c.fd >= 0
      modifies this
      ensures slots == Inserted(old(slots), c)
      ensures old(IndexedByFd(slots)) ==> IndexedByFd(slots)
    {
      if |slots| <= c.fd {
        slots := slots + seq(c.fd + 1 - |slots|, _ => None);
      }
      slots := slots[c.fd := Some(c)];
    }

    /** Drop the connection in slot `fd`. */
    method Reset(fd: nat)
      requires fd < |slots|
      modifies this
      ensures slots == Removed(old(slots), fd)
      ensures old(IndexedByFd(slots)) ==> IndexedByFd(slots)
    {
      slots := slots[fd := None];
    }

    /** One pass of the client loop for the descriptor `fd`: handleRead if
        readable (its read has outcome `r`, and the write it may attempt has
        outcome `wRead`), then handleWrite if writable (outcome `w`), then
        close and reset the slot on an error or a close intent.  An empty
        slot is skipped. */
    method Service(fd: nat, ev: Revents, r: ReadResult, wRead: WriteResult, w: WriteResult)
      returns (closed: bool)
      requires fd < |slots|
      modifies this, if slots[fd].Some? then {slots[fd].value} else {}
      ensures old(slots[fd]).Some? ==>
                old(slots[fd]).value.State() ==
                  ServiceStep(old(slots[fd].value.State()), ev, r, wRead, w)
      ensures var c := old(slots[fd]);
              closed <==> c.Some? && (ev.error || c.value.wantClose)
      ensures closed ==> slots == Removed(old(slots), fd)
      ensures !closed ==> slots == old(slots)
    {
      closed := false;
      if slots[fd].None? {
        return;
      }
      var conn := slots[fd].value;
      conn.OnReady(ev, r, wRead, w);
      if ev.error || conn.wantClose {
        slots := slots[fd := None];
        closed := true;
      }
    }
  }

  /** A connection whose read fails is closed and dropped from the table in
      the same pass of the client loop. */
  method ReadErrorCloses(c: Connection) returns (closed: bool, t: Table)
    requires c.fd >= 0
    modifies c
    ensures closed
    ensures c.fd < |t.slots| && t.slots[c.fd] == None
  {
    t := new Table();
    t.Insert(c);
    closed := t.Service(c.fd, Revents(true, false, false), ReadFailed, WriteWouldBlock, WriteWouldBlock);
  }
}
