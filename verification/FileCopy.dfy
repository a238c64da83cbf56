/** `copy_file` of cygwin/examples/test12.c: a read loop around a write-all loop,
    against an operating system that transfers as much or as little as it likes. */
module FileCopy {
  import opened Arithmetic
  import opened Bytes

  const BUFFER_LENGTH := 2048
  const SOURCE_FD := 3
  const DESTINATION_FD := 4

  /** The system's answer to one read or write: -1 with EINTR, -1 with another
      error, or a transfer of at most `amount` bytes. */
  datatype Event = Interrupted | Fails | Transfers(amount: nat)

  /** How a run ends. `Unfinished` is a run that is still going on when the
      schedule of events is used up. */
  datatype Outcome = SourceNotOpened | DestinationNotOpened | ReadFailed | WriteFailed | Copied | Unfinished

  /** The answers that move the copy forward. */
  function Productive(events: seq<Event>): nat {
    if events == [] then 0
    else (if events[0].Transfers? && events[0].amount > 0 then 1 else 0) + Productive(events[1..])
  }

  /** No answer from number `from` up to `to` is an error other than EINTR. */
  ghost predicate NoFailure(events: seq<Event>, from: nat, to: nat)
    requires to <= |events|
  {
    forall i | from <= i < to :: !events[i].Fails?
  }

  /** The last one of them is the first such error. */
  ghost predicate EndsInFailure(events: seq<Event>, from: nat, to: nat)
    requires to <= |events|
  {
    from < to && events[to - 1].Fails? && NoFailure(events, from, to - 1)
  }

  /** Each of them lets a call transfer all it can: a buffer is 2048 bytes. */
  ghost predicate Generous(events: seq<Event>, from: nat, to: nat)
    requires to <= |events|
  {
    forall i | from <= i < to :: events[i].Transfers? && 2048 <= events[i].amount
  }

  lemma {:induction false} AllProductive(events: seq<Event>)
    requires forall i | 0 <= i < |events| :: events[i].Transfers? && 0 < events[i].amount
    ensures Productive(events) == |events|
  {
    if events != [] {
      AllProductive(events[1..]);
    }
  }

  class System {
    const source: seq<Byte>
    var position: nat
    var destination: seq<Byte>
    var schedule: seq<Event>
    var opens: seq<int>
    var closes: seq<int>

    ghost predicate Valid()
      reads this
    {
      position <= |source|
    }

    constructor (source: seq<Byte>, destination: seq<Byte>, schedule: seq<Event>)
      ensures Valid() && position == 0 && this.source == source && this.destination == destination
      ensures this.schedule == schedule && opens == closes == []
    {
      this.source, this.destination, this.schedule := source, destination, schedule;
      position := 0;
      opens, closes := [], [];
    }

    /** open(source, O_RDONLY). */
    method OpenSource(succeeds: bool) returns (fd: int)
      modifies this`opens
      ensures fd == if succeeds then SOURCE_FD else -1
      ensures opens == old(opens) + if succeeds then [SOURCE_FD] else []
    {
      fd := -1;
      if succeeds {
        fd := SOURCE_FD;
        opens := opens + [fd];
      }
    }

    /** open(destination, O_WRONLY | O_CREAT | O_TRUNC, 0644). */
    method OpenDestination(succeeds: bool) returns (fd: int)
      modifies this`opens, this`destination
      ensures fd == if succeeds then DESTINATION_FD else -1
      ensures opens == old(opens) + if succeeds then [DESTINATION_FD] else []
      ensures destination == if succeeds then [] else old(destination)
    {
      fd := -1;
      if succeeds {
        fd := DESTINATION_FD;
        opens := opens + [fd];
        destination := [];
      }
    }

    /** close(fd); whether it reports an error makes no difference to the copy. */
    method Close(fd: int)
      modifies this`closes
      ensures closes == old(closes) + [fd]
    {
      closes := closes + [fd];
    }

    /** read(fd, buffer, sizeof buffer): at least one byte before the end of the
        file, none at its end. */
    method Read(buffer: array<Byte>) returns (count: int, interrupted: bool)
      requires Valid() && schedule != [] && buffer.Length > 0
      modifies this`schedule, this`position, buffer
      ensures Valid() && schedule == old(schedule)[1..]
      ensures -1 <= count <= buffer.Length
      ensures count == -1 ==> position == old(position) && (interrupted <==> old(schedule)[0].Interrupted?)
      ensures count == -1 <==> !old(schedule)[0].Transfers?
      ensures count >= 0 ==> count == Min(if old(schedule)[0].amount == 0 then 1 else old(schedule)[0].amount,
                                          Min(buffer.Length, |source| - old(position)))
      ensures count >= 0 ==> position == old(position) + count && buffer[..count] == source[old(position)..position]
      ensures count == 0 <==> old(schedule)[0].Transfers? && old(position) == |source|
    {
      var event := schedule[0];
      schedule := schedule[1..];
      if !event.Transfers? {
        return -1, event.Interrupted?;
      }
      var wanted := if event.amount == 0 then 1 else event.amount;
      var n := Min(wanted, Min(buffer.Length, |source| - position));
      forall i | 0 <= i < n {
        buffer[i] := source[position + i];
      }
      position := position + n;
      count, interrupted := n, false;
      assert buffer[..n] == source[position - n..position];
    }

    /** write(fd, buffer + from, length): any part of it, possibly nothing. */
    method Write(buffer: array<Byte>, from: nat, length: nat) returns (count: int, interrupted: bool)
      requires schedule != [] && from + length <= buffer.Length
      modifies this`schedule, this`destination
      ensures schedule == old(schedule)[1..]
      ensures -1 <= count <= length
      ensures count == -1 <==> !old(schedule)[0].Transfers?
      ensures count == -1 ==> destination == old(destination) && (interrupted <==> old(schedule)[0].Interrupted?)
      ensures count >= 0 ==> destination == old(destination) + buffer[from..from + count]
      ensures count >= 0 ==> count == Min(old(schedule)[0].amount, length)
    {
      var event := schedule[0];
      schedule := schedule[1..];
      if !event.Transfers? {
        return -1, event.Interrupted?;
      }
      var n := Min(event.amount, length);
      destination := destination + buffer[from..from + n];
      count, interrupted := n, false;
    }
  }

  datatype WriteStatus = AllWritten | Failed | OutOfEvents

  /** The inner loop of `copy_file`: writes all of buffer[..bytesRead]. The system has
      given `at` of its answers before and `used` of them afterwards. */
  method WriteAll(os: System, buffer: array<Byte>, bytesRead: nat,
                  ghost data: seq<Byte>, ghost events: seq<Event>, ghost at: nat)
    returns (status: WriteStatus, ghost written: nat, ghost used: nat)
    requires bytesRead <= buffer.Length && data == buffer[..bytesRead]
    requires at <= |events| && os.schedule == events[at..]
    modifies os`schedule, os`destination
    ensures written <= bytesRead && (status.AllWritten? <==> written == bytesRead)
    ensures os.destination == old(os.destination) + data[..written]
    ensures at <= used <= |events| && os.schedule == events[used..]
    ensures if status.Failed? then EndsInFailure(events, at, used) else NoFailure(events, at, used)
    ensures status.OutOfEvents? ==> os.schedule == []
    ensures status.AllWritten? && 0 < bytesRead <= 2048 && Generous(events, at, used) ==> used == at + 1
    ensures !status.Failed? ==> Productive(events[at..]) <= Productive(events[used..]) + written
  {
    var totalWritten := 0;
    used := at;
    while totalWritten < bytesRead
      invariant totalWritten <= bytesRead
      invariant os.destination == old(os.destination) + data[..totalWritten]
      invariant at <= used <= |events| && os.schedule == events[used..]
      invariant NoFailure(events, at, used)
      invariant bytesRead <= 2048 && Generous(events, at, used) ==>
                  (used == at && totalWritten == 0) || (used == at + 1 && totalWritten == bytesRead)
      invariant Productive(events[at..]) <= Productive(events[used..]) + totalWritten
      decreases |os.schedule|
    {
      if os.schedule == [] {
        return OutOfEvents, totalWritten, used;
      }
      var bytesWritten, interrupted := os.Write(buffer, totalWritten, bytesRead - totalWritten);
      assert events[used..][1..] == events[used + 1..];
      used := used + 1;
      if bytesWritten == -1 {
        if interrupted {
          continue;
        }
        return Failed, totalWritten, used;
      }
      assert data[..totalWritten + bytesWritten]
          == data[..totalWritten] + buffer[totalWritten..totalWritten + bytesWritten];
      totalWritten := totalWritten + bytesWritten;
    }
    return AllWritten, totalWritten, used;
  }

  method CloseBoth(os: System, sourceFd: int, destinationFd: int)
    modifies os`closes
    ensures os.closes == old(os.closes) + [sourceFd, destinationFd]
  {
    os.Close(sourceFd);
    os.Close(destinationFd);
  }

  /** The outer loop of `copy_file` with its error exits. */
  method CopyLoop(os: System, sourceFd: int, destinationFd: int, ghost events: seq<Event>)
    returns (outcome: Outcome, ghost used: nat, ghost rounds: nat)
    requires os.Valid() && os.position == 0 && os.destination == [] && os.schedule == events && os.closes == []
    modifies os`position, os`destination, os`schedule, os`closes
    ensures |os.destination| <= os.position <= |os.source|
    ensures os.destination == os.source[..|os.destination|]
    ensures !outcome.SourceNotOpened? && !outcome.DestinationNotOpened?
    ensures os.closes == if outcome.ReadFailed? || outcome.WriteFailed? then [sourceFd, destinationFd] else []
    ensures used <= |events| && os.schedule == events[used..]
    ensures if outcome.ReadFailed? || outcome.WriteFailed? then EndsInFailure(events, 0, used)
            else NoFailure(events, 0, used)
    ensures outcome.ReadFailed? || outcome.Copied? ==> |os.destination| == os.position
    ensures outcome.WriteFailed? ==> |os.destination| < os.position
    ensures outcome.Copied? ==> os.position == |os.source| && used > 0 && events[used - 1].Transfers?
    ensures outcome.Unfinished? ==> os.schedule == [] && Productive(events) <= 2 * |os.source|
    ensures outcome.Copied? ==> FullPace(events, used - 1, rounds, |os.source|, |os.source|)
  {
    used, rounds := 0, 0;
    var buffer := new Byte[BUFFER_LENGTH];
    while true
      invariant os.Valid() && os.closes == []
      invariant os.destination == os.source[..os.position]
      invariant used <= |events| && os.schedule == events[used..]
      invariant NoFailure(events, 0, used) && FullPace(events, used, rounds, os.position, |os.source|)
      invariant Productive(events) <= Productive(os.schedule) + 2 * os.position
      decreases |os.schedule|
    {
      if os.schedule == [] {
        return Unfinished, used, rounds;
      }
      ghost var before := os.position;
      var bytesRead, interrupted := os.Read(buffer);
      assert events[used..][1..] == events[used + 1..];
      used := used + 1;
      if bytesRead == -1 {
        if interrupted {
          continue;
        }
        CloseBoth(os, sourceFd, destinationFd);
        return ReadFailed, used, rounds;
      }
      if bytesRead == 0 {
        return Copied, used, rounds;
      }
      ghost var data := os.source[before..os.position];
      ghost var at := used;
      var status;
      ghost var written;
      status, written, used := WriteAll(os, buffer, bytesRead, data, events, at);
      PrefixExtends(os.source, before, data, written);
      assert os.destination == os.source[..before + written];
      if status.Failed? {
        CloseBoth(os, sourceFd, destinationFd);
        return WriteFailed, used, rounds;
      }
      if status.OutOfEvents? {
        return Unfinished, used, rounds;
      }
      PaceKept(events, at, used, rounds, before, bytesRead, |os.source|);
      rounds := rounds + 1;
    }
  }

  /** The copy from the two opens on. `used` counts the answers of the system. */
  method CopyFile(os: System, sourceOpens: bool, destinationOpens: bool)
    returns (outcome: Outcome, ghost used: nat)
    requires os.Valid() && os.position == 0 && os.opens == os.closes == []
    modifies os
    // success means equal contents, and every other exit leaves a prefix
    ensures outcome.Copied? ==> os.destination == os.source
    ensures outcome.ReadFailed? || outcome.WriteFailed? || outcome.Unfinished? ==> os.destination <= os.source
    ensures outcome.SourceNotOpened? || outcome.DestinationNotOpened? ==> os.destination == old(os.destination)
    // every descriptor that was opened is closed exactly once, in the order of opening
    ensures !outcome.Unfinished? ==> os.closes == os.opens
    ensures outcome.Unfinished? ==> os.closes == []
    ensures os.opens == if !sourceOpens then []
                        else if !destinationOpens then [SOURCE_FD]
                        else [SOURCE_FD, DESTINATION_FD]
    // when each exit is taken
    ensures outcome.SourceNotOpened? <==> !sourceOpens
    ensures outcome.DestinationNotOpened? <==> sourceOpens && !destinationOpens
    ensures used <= |old(os.schedule)| && os.schedule == old(os.schedule)[used..]
    ensures !(sourceOpens && destinationOpens) ==> used == 0
    ensures if outcome.ReadFailed? || outcome.WriteFailed? then EndsInFailure(old(os.schedule), 0, used)
            else NoFailure(old(os.schedule), 0, used)
    ensures outcome.ReadFailed? ==> |os.destination| == os.position
    ensures outcome.WriteFailed? ==> |os.destination| < os.position
    ensures outcome.Copied? ==> os.position == |os.source| && used > 0 && old(os.schedule)[used - 1].Transfers?
    ensures outcome.Unfinished? ==> os.schedule == []
    // how long it takes
    ensures outcome.Unfinished? ==> Productive(old(os.schedule)) <= 2 * |os.source|
    ensures outcome.Unfinished?
            && (forall i | 0 <= i < |old(os.schedule)| ::
                  old(os.schedule)[i].Transfers? && 0 < old(os.schedule)[i].amount) ==>
              |old(os.schedule)| <= 2 * |os.source|
    ensures outcome.Copied? && Generous(old(os.schedule), 0, used) ==> used == 2 * ((|os.source| + 2047) / 2048) + 1
  {
    used := 0;
    var sourceFd := os.OpenSource(sourceOpens);
    if sourceFd == -1 {
      return SourceNotOpened, used;
    }
    var destinationFd := os.OpenDestination(destinationOpens);
    if destinationFd == -1 {
      os.Close(sourceFd);
      return DestinationNotOpened, used;
    }
    ghost var rounds;
    outcome, used, rounds := CopyLoop(os, sourceFd, destinationFd, os.schedule);
    if outcome.Unfinished? {
      UnfinishedIsShort(old(os.schedule), |os.source|);
    }
    if outcome.Copied? {
      if Generous(old(os.schedule), 0, used) {
        assert Generous(old(os.schedule), 0, used - 1);
        RoundsOfSize(rounds, |os.source|);
      }
      CloseBoth(os, sourceFd, destinationFd);
    }
  }

  /** At full transfers every buffer takes two calls. */
  ghost predicate FullPace(events: seq<Event>, used: nat, rounds: nat, position: nat, size: nat)
    requires used <= |events|
  {
    Generous(events, 0, used) ==> used == 2 * rounds && AfterRounds(rounds, position, size)
  }

  /** That many full buffers, or the last one was shorter and nothing is left. */
  predicate AfterRounds(rounds: nat, position: nat, size: nat) {
    position == 2048 * rounds || (position == size && 2048 * rounds - 2048 < size <= 2048 * rounds)
  }

  lemma PaceKept(events: seq<Event>, at: nat, used: nat, rounds: nat, position: nat, read: nat, size: nat)
    requires 0 < at <= used <= |events| && FullPace(events, at - 1, rounds, position, size) && 0 < read
    requires events[at - 1].Transfers? && position + read <= size
    requires read == Min(if events[at - 1].amount == 0 then 1 else events[at - 1].amount, Min(2048, size - position))
    requires Generous(events, at, used) ==> used == at + 1
    ensures FullPace(events, used, rounds + 1, position + read, size)
  {
    if Generous(events, 0, used) {
      assert Generous(events, 0, at - 1) && 2048 <= events[at - 1].amount;
    }
  }

  lemma RoundsOfSize(rounds: nat, size: nat)
    requires AfterRounds(rounds, size, size)
    ensures rounds == (size + 2047) / 2048
  {
  }

  lemma UnfinishedIsShort(events: seq<Event>, n: nat)
    requires Productive(events) <= 2 * n
    ensures (forall i | 0 <= i < |events| :: events[i].Transfers? && 0 < events[i].amount) ==> |events| <= 2 * n
  {
    if forall i | 0 <= i < |events| :: events[i].Transfers? && 0 < events[i].amount {
      AllProductive(events);
    }
  }

  /** Appending the start of what was read extends the copied prefix. */
  lemma PrefixExtends(source: seq<Byte>, at: nat, data: seq<Byte>, n: nat)
    requires at + |data| <= |source| && data == source[at..at + |data|] && n <= |data|
    ensures source[..at] + data[..n] == source[..at + n]
  {
  }
}
