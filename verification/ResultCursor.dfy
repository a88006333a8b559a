/** The result cursor of the query worker, src/worker.rs: preview pages, the
    batch held back at the preview limit, and the drain of the whole result. */
module ResultCursor {
  import opened Options

  const PREVIEW_ROWS := 1000
  const MAX_RESULT_ROWS := 100000
  const MAX_RESULT_BYTES := 64 * 1024 * 1024

  /** What each stretch of preview rows of a drain needs besides the rows. */
  const PREVIEW_OVERHEAD := 512

  /** A row, with the memory that it needs in the preview. */
  datatype Row = Row(id: int, bytes: nat)

  function Bytes(rows: seq<Row>): nat {
    if rows == [] then 0 else rows[0].bytes + Bytes(rows[1..])
  }

  datatype Cursor = Unavailable | Available | Draining | Downloaded | Consumed | Complete

  /** How a command ends: well, or with one of the errors that the command loop tells apart. */
  datatype Status = Fine | QueryError | OtherError | SignInCancelled

  datatype QueryState = Running | Streaming(hasResults: bool) | Finished(hasResults: bool) | Cancelled

  lemma {:induction false} BytesAppend(a: seq<Row>, b: seq<Row>)
    ensures Bytes(a + b) == Bytes(a) + Bytes(b)
  {
    if a == [] {
      assert a + b == b;
    } else {
      assert (a + b)[0] == a[0] && (a + b)[1..] == a[1..] + b;
      BytesAppend(a[1..], b);
    }
  }

  /** The first `count` rows to come were delivered. */
  ghost predicate TookRows(coming: seq<Row>, delivered: seq<Row>, bytes: nat, left: seq<Row>, more: seq<Row>,
                           sum: nat, count: nat) {
    && count <= |coming| && more == delivered + coming[..count] && left == coming[count..]
    && sum == bytes + Bytes(coming[..count])
  }

  ghost predicate HasRoom(coming: seq<Row>, rows: nat, bytes: nat, count: nat) {
    count <= |coming| && rows + count <= MAX_RESULT_ROWS && bytes + Bytes(coming[..count]) <= MAX_RESULT_BYTES
  }

  lemma TookMore(c0: seq<Row>, d0: seq<Row>, b0: nat, c1: seq<Row>, d1: seq<Row>, b1: nat, n: nat,
                 c2: seq<Row>, d2: seq<Row>, b2: nat, m: nat)
    requires TookRows(c0, d0, b0, c1, d1, b1, n) && TookRows(c1, d1, b1, c2, d2, b2, m)
    ensures TookRows(c0, d0, b0, c2, d2, b2, n + m)
  {
    hide Bytes;
    BytesUpTo(c0, n, n + m);
    assert c1[..m] == c0[n..n + m] && c0[..n] + c0[n..n + m] == c0[..n + m];
  }

  /** Without room for more rows after some there is none for all of them. */
  lemma NoRoomLater(c0: seq<Row>, d0: seq<Row>, rows: nat, b0: nat, c1: seq<Row>, d1: seq<Row>, b1: nat, n: nat,
                    m: nat, all: nat)
    requires TookRows(c0, d0, b0, c1, d1, b1, n) && !HasRoom(c1, rows + n, b1, m) && n + m <= all <= |c0|
    ensures !HasRoom(c0, rows, b0, all)
  {
    hide Bytes;
    BytesUpTo(c0, n, n + m);
    BytesUpTo(c0[..all], n + m, all);
    assert c1[..m] == c0[n..n + m] && c0[..all][..n + m] == c0[..n + m] && c0[..all][..all] == c0[..all];
  }

  /** What is taken from the start of a result. */
  lemma FromStart(result: seq<Row>, left: seq<Row>, more: seq<Row>, sum: nat, count: nat)
    ensures TookRows(result, [], 0, left, more, sum, count) ==> more == result[..count] && left == result[count..]
  {
  }

  lemma TookFacts(coming: seq<Row>, delivered: seq<Row>, bytes: nat, left: seq<Row>, more: seq<Row>, sum: nat,
                  count: nat)
    requires TookRows(coming, delivered, bytes, left, more, sum, count)
    ensures count <= |coming| && |more| == |delivered| + count
  {
  }

  lemma RoomForBatch(batch: seq<Row>, rest: seq<Row>, rows: nat, bytes: nat)
    ensures HasRoom(batch + rest, rows, bytes, |batch|) <==>
              rows + |batch| <= MAX_RESULT_ROWS && bytes + Bytes(batch) <= MAX_RESULT_BYTES
  {
    hide Bytes;
    assert (batch + rest)[..|batch|] == batch;
  }

  lemma NothingTaken(coming: seq<Row>, delivered: seq<Row>, bytes: nat)
    ensures TookRows(coming, delivered, bytes, coming, delivered, bytes, 0)
  {
  }

  lemma BytesNext(rows: seq<Row>, k: nat)
    requires k < |rows|
    ensures Bytes(rows[..k + 1]) == Bytes(rows[..k]) + rows[k].bytes
  {
    assert rows[..k + 1] == rows[..k] + [rows[k]];
    BytesAppend(rows[..k], [rows[k]]);
    assert Bytes([rows[k]]) == rows[k].bytes;
  }

  /** The size of the first rows, and that of a stretch after them. */
  lemma BytesUpTo(rows: seq<Row>, from: nat, to: nat)
    requires from <= to <= |rows|
    ensures Bytes(rows[..to]) == Bytes(rows[..from]) + Bytes(rows[from..to])
    ensures Bytes(rows[..from]) <= Bytes(rows[..to]) <= Bytes(rows)
  {
    hide Bytes;
    assert rows[..to] == rows[..from] + rows[from..to] && rows == rows[..to] + rows[to..];
    BytesAppend(rows[..from], rows[from..to]);
    BytesAppend(rows[..to], rows[to..]);
  }

  /** Four stretches of rows, one after the other: taken by others, delivered, held back, and still to come. */
  function Together(taken: seq<Row>, delivered: seq<Row>, held: seq<Row>, rest: seq<Row>): (rows: seq<Row>)
    ensures |rows| == |taken| + |delivered| + |held| + |rest|
  {
    taken + delivered + held + rest
  }

  /** A batch goes from the rows to come to those held back, and on to those delivered. */
  lemma BatchMoves(taken: seq<Row>, delivered: seq<Row>, batch: seq<Row>, rest: seq<Row>)
    ensures Together(taken, delivered, [], batch + rest) == Together(taken, delivered, batch, rest)
    ensures Together(taken, delivered, batch, rest) == Together(taken, delivered + batch, [], rest)
  {
  }

  /** All that a statement took joins what was taken before. */
  lemma AllTaken(taken: seq<Row>, delivered: seq<Row>, held: seq<Row>, rest: seq<Row>)
    ensures Together(taken, delivered, held, rest) == Together(taken + delivered + held, [], [], rest)
  {
  }

  lemma AllDelivered(taken: seq<Row>, delivered: seq<Row>)
    ensures Together(taken, delivered, [], []) == taken + delivered
    ensures Together([], delivered, [], []) == delivered
  {
  }

  lemma AllComing(rest: seq<Row>)
    ensures Together([], [], [], rest) == rest
  {
  }

  /** What is not taken is all of a result exactly when nothing was taken. */
  lemma AllUnlessTaken(taken: seq<Row>, delivered: seq<Row>, held: seq<Row>, rest: seq<Row>)
    ensures Together([], delivered, held, rest) == Together(taken, delivered, held, rest) <==> taken == []
  {
  }

  /** What `finish_execution` reports. */
  datatype Completion = CompletionFinished(hasResults: bool) | CompletionCancelled

  /** What the worker meets the next time that it depends on something outside: whether
      the shared cancellation flag is set, and whether another thread reset it just before;
      whether a budget has room or a check passes; how a call of the session ends, and
      what it gives. */
  datatype Answer = Answer(
    cancelled: bool, reset: bool, agrees: bool, status: Status, rows: nat, limited: bool,
    result: seq<Row>, state: QueryState, completion: Completion)

  /** The answers that a command meets, and one for all that it asks after them. A command
      ends, so every behaviour of the server and of the other threads is such a world. */
  datatype World = World(answers: seq<Answer>, after: Answer) {
    function At(k: nat): Answer { if k < |answers| then answers[k] else after }
  }

  /** How a call of the session ends; it never reports a cancelled sign-in. */
  function CallStatus(a: Answer): (status: Status)
    ensures status != SignInCancelled
  {
    if a.status == SignInCancelled then OtherError else a.status
  }

  predicate IsSmooth(a: Answer) {
    !a.cancelled && a.agrees && a.status == Fine && !a.limited && a.rows == PREVIEW_ROWS
    && a.state == Finished(true) && a.completion.CompletionFinished?
  }

  /** Nothing fails, nobody cancels, budgets have room, and the server sends full pages. */
  predicate IsSmoothWorld(world: World) { world.answers == [] && IsSmooth(world.after) }

  /** Between two of its questions the worker saw a cancellation. */
  ghost predicate CancelSeen(world: World, from: nat, to: nat) {
    exists k :: from <= k < to && (world.At(k).cancelled || world.At(k).completion.CompletionCancelled?)
  }

  /** Between two of its questions the worker saw a session at its limit. */
  ghost predicate LimitSeen(world: World, from: nat, to: nat) {
    exists k :: from <= k < to && world.At(k).limited
  }

  lemma FlagSeen(world: World, from: nat, at: nat, to: nat)
    requires from <= at
    ensures at < to && world.At(at).cancelled ==> CancelSeen(world, from, to)
  {
  }

  lemma ReportSeen(world: World, from: nat, at: nat, to: nat)
    requires from <= at
    ensures at < to && world.At(at).completion.CompletionCancelled? ==> CancelSeen(world, from, to)
  {
  }

  lemma SeenStays(world: World, from: nat, a: nat, b: nat, to: nat)
    requires from <= a <= b <= to
    ensures CancelSeen(world, a, b) ==> CancelSeen(world, from, to)
    ensures LimitSeen(world, a, b) ==> LimitSeen(world, from, to)
  {
  }

  /** The result of every statement has a first page that fits into the preview. */
  predicate GivesPage(world: World) {
    && IsSmoothWorld(world) && PREVIEW_ROWS <= |world.after.result|
    && Bytes(world.after.result[..PREVIEW_ROWS]) <= MAX_RESULT_BYTES
  }

  /** The server session. It delivers the rows of its open operation in order, and an
      empty batch only after the last one. */
  class Session {
    var open: bool
    var limited: bool
    var remaining: seq<Row>

    constructor ()
      ensures !open
    {
      open, limited, remaining := false, false, [];
    }

    method Execute(a: Answer) returns (status: Status)
      modifies this
      ensures status == CallStatus(a)
      ensures status == Fine ==> open && limited == a.limited && remaining == a.result
    {
      status := CallStatus(a);
      if status == Fine {
        open, limited, remaining := true, a.limited, a.result;
      }
    }

    /** A batch can hold more rows than requested: the caller has to check. */
    method Fetch(count: nat, a: Answer) returns (status: Status, rows: seq<Row>)
      modifies this
      ensures open == old(open) && status == if open then CallStatus(a) else OtherError
      ensures status == Fine ==> rows + remaining == old(remaining) && (rows == [] ==> remaining == [])
      ensures status == Fine ==> limited == a.limited
      ensures status == Fine && 0 < a.rows <= |old(remaining)| ==> |rows| == a.rows
    {
      rows := [];
      if !open {
        return OtherError, [];
      }
      status := CallStatus(a);
      if status == Fine {
        limited := a.limited;
        var n := if a.rows > |remaining| then |remaining| else if a.rows == 0 && remaining != [] then 1 else a.rows;
        rows, remaining := remaining[..n], remaining[n..];
      } else {
        remaining := a.result;
      }
    }

    method CloseOperation(a: Answer) returns (status: Status)
      modifies this
      ensures !open && limited == old(limited) && remaining == old(remaining) && status == CallStatus(a)
    {
      open := false;
      status := CallStatus(a);
    }
  }

  /** `ExportPreview`: the rows that a drain adds to the preview. */
  datatype Preview = Preview(rows: nat, bytes: nat, full: bool)

  function NewPreview(rows: nat, bytes: nat): Preview {
    Preview(rows, bytes, rows >= MAX_RESULT_ROWS || bytes >= MAX_RESULT_BYTES)
  }

  /** The first `count` rows fit into the preview. */
  predicate Fits(preview: Preview, batch: seq<Row>, count: nat) {
    && count <= |batch| && preview.rows + count <= MAX_RESULT_ROWS
    && (count > 0 ==> preview.bytes + PREVIEW_OVERHEAD + Bytes(batch[..count]) <= MAX_RESULT_BYTES)
  }

  /** Where an export puts the rows, and whether it was told that these are all. */
  datatype Spool = Spool(rows: seq<Row>, complete: bool)

  datatype DrainOutcome = Refused | NotBound | Spooled(rows: seq<Row>, previewComplete: bool) | Lost(disconnected: bool)

  class Runner {
    // What the worker meets, and how often it has met something.
    var world: World
    var clock: nat
    var session: Session?
    var kyuubi: bool             // the database type of the profile
    var rows: nat
    var bytes: nat
    var current: Option<nat>     // the execution
    var completed: Option<bool>  // once it was submitted: whether its completion is known
    var cursor: Cursor
    var pending: Option<seq<Row>>
    var target: bool             // whether a cancellation target is present
    // The rows sent to the interface for the current execution.
    var delivered: seq<Row>
    // The whole result of the operation that the session last submitted.
    ghost var whole: seq<Row>
    // The rows that an abandoned execution already took from that operation.
    ghost var skipped: seq<Row>
    // How many drains of that operation were accepted.
    ghost var drains: nat
    // How many calls and checks have failed.
    ghost var faults: nat

    constructor (world: World)
      ensures Valid() && cursor == Unavailable && !target && session == null
    {
      this.world, clock := world, 0;
      session, kyuubi, rows, bytes, current, completed := null, false, 0, 0, None, None;
      cursor, pending, target := Unavailable, None, false;
      delivered, whole, skipped, drains, faults := [], [], [], 0, 0;
    }

    function Held(): seq<Row>
      reads this`pending
    {
      if pending.Some? then pending.value else []
    }

    /** No row is lost, doubled or out of order: what was delivered, what is held
        back and what the session still has are the whole result. */
    ghost predicate Conserved()
      reads this`session, this`skipped, this`delivered, this`pending, this`whole, session
    {
      session != null && session.open && Together(skipped, delivered, Held(), session.remaining) == whole
    }

    /** What holds even after an error, before the command loop deals with it. */
    ghost predicate Counted()
      reads this`session, this`rows, this`bytes, this`completed, this`cursor, this`target
      reads this`delivered, this`whole, this`skipped, this`drains
    {
      && rows == |delivered| <= MAX_RESULT_ROWS && bytes <= MAX_RESULT_BYTES && drains <= 1
      && (cursor == Complete ==> !target && Together(skipped, delivered, [], []) == whole)
      && (session == null ==> !target)
      && (target && Submitted() ==> skipped == [])
    }

    /** Whether the current execution submitted its statement: its timing is present. */
    predicate Submitted()
      reads this`completed
    {
      completed.Some?
    }

    /** The current execution can still show or export the whole result of the open operation. */
    ghost predicate InReach()
      reads this`session, this`delivered, this`pending, this`whole, session
    {
      session != null && Together([], delivered, Held(), session.remaining) == whole
    }

    /** What holds between commands. */
    ghost predicate Valid()
      reads this`session, this`kyuubi, this`rows, this`bytes, this`completed, this`cursor, this`pending, this`target
      reads this`delivered, this`whole, this`skipped, this`drains, session
    {
      && Counted()
      && (target ==> Conserved() && drains == 0)
      && (target && (cursor == Available || pending.Some?) ==> kyuubi)
      && (session != null && session.open ==> target)
    }

    /** The whole result is in reach exactly when no other execution took rows of it. */
    lemma ReachIff()
      requires Valid()
      ensures target ==> (InReach() <==> skipped == [])
    {
      hide Together;
      if target {
        AllUnlessTaken(skipped, delivered, Held(), session.remaining);
      }
    }

    lemma TargetConserves()
      requires Valid()
      ensures target ==> Conserved()
    {
    }

    /** The next answer of the world. */
    method Ask() returns (a: Answer)
      modifies this`clock
      ensures a == world.At(old(clock)) && clock == old(clock) + 1
    {
      a := world.At(clock);
      clock := clock + 1;
    }

    /** A check that failed here. */
    method Fail() returns (status: Status)
      modifies this`faults
      ensures status == OtherError && faults == old(faults) + 1
    {
      status := OtherError;
      faults := faults + 1;
    }

    /** A call that gives nothing but its end. */
    method Call() returns (status: Status)
      modifies this`clock, this`faults
      ensures clock == old(clock) + 1 && status == CallStatus(world.At(old(clock)))
      ensures faults == old(faults) + if status == Fine then 0 else 1
    {
      var a := Ask();
      status := CallStatus(a);
      if status != Fine {
        faults := faults + 1;
      }
    }

    method CloseOperation() returns (status: Status)
      requires session != null
      modifies this`clock, this`faults, session
      ensures clock == old(clock) + 1 && status == CallStatus(world.At(old(clock)))
      ensures faults == old(faults) + if status == Fine then 0 else 1
      ensures !session.open && session.limited == old(session.limited) && session.remaining == old(session.remaining)
    {
      var a := Ask();
      status := session.CloseOperation(a);
      if status != Fine {
        faults := faults + 1;
      }
    }

    /** An error leaves what the cursor depends on. */
    twostate predicate CursorStays()
      reads this
    {
      cursor == old(cursor) && target == old(target) && pending == old(pending)
    }

    method Disconnect()
      modifies this`session, this`cursor, this`pending, this`target
      ensures session == null && cursor == Unavailable && pending.None? && !target
    {
      cursor, pending, target, session := Unavailable, None, false, null;
    }

    /** What a load of the cancellation flag gives, also right after this thread set it. */
    static predicate IsSet(a: Answer, stored: bool) { a.cancelled || (stored && !a.reset) }

    /** A fetch that goes on changed nothing. */
    twostate predicate GoesOn()
      reads this, session
    {
      && target == old(target) && pending == old(pending) && cursor == old(cursor) && session == old(session)
      && (session != null ==>
            session.open == old(session.open) && session.remaining == old(session.remaining)
                && session.limited == old(session.limited))
    }

    /** A fetch that was cancelled closed its operation. */
    predicate IsConsumed()
      reads this, session
    {
      session != null && !session.open && !target && pending.None? && cursor == Consumed
    }

    /** `finish_cancelled_fetch`: whether the fetch ends here. `stored` says that this thread just set the flag. */
    method FinishCancelledFetch(stored: bool) returns (done: bool, status: Status)
      requires Counted()
      modifies this`clock, this`target, this`pending, this`cursor, this`faults, session
      ensures status != SignInCancelled && Counted()
      ensures target ==> old(target)
      ensures old(faults) <= faults && (status == Fine <==> faults == old(faults))
      ensures status != Fine ==> CursorStays()
      ensures done <==> world.At(old(clock)).cancelled || (stored && !world.At(old(clock)).reset)
      ensures status == Fine ==> if done then IsConsumed() else GoesOn()
      ensures !done ==> status == Fine && clock == old(clock) + 1
      ensures done ==> status == if session == null then OtherError else CallStatus(world.At(old(clock) + 1))
      ensures old(clock) < clock
    {
      var flag := Ask();
      done := IsSet(flag, stored);
      status := Fine;
      if !done {
        return;
      }
      if session == null {
        status := Fail();
        return;
      }
      status := CloseOperation();
      if status != Fine {
        return;
      }
      target, pending, cursor := false, None, Consumed;
    }

    /** `finish_preview_execution`: whether the fetch ends here. When the server reports a
        cancellation it does, unless another thread resets the flag at once. */
    method FinishPreviewExecution() returns (done: bool, status: Status)
      requires Counted()
      modifies this`clock, this`target, this`pending, this`cursor, this`completed, this`faults, session
      ensures status != SignInCancelled && Counted()
      ensures target ==> old(target)
      ensures old(faults) <= faults && (status == Fine <==> faults == old(faults))
      ensures status != Fine ==> CursorStays()
      ensures status == Fine ==> if done then IsConsumed() else GoesOn()
      ensures Submitted() == old(Submitted())
      ensures var c := old(clock);
              if old(completed) != Some(false) then
                completed == old(completed) && (status == Fine ==> (done <==> world.At(c).cancelled))
              else
                var report := world.At(c);
                var stored := report.completion.CompletionCancelled?;
                && (session == null || CallStatus(report) != Fine ==> status != Fine)
                && (status == Fine ==>
                      && (done <==> world.At(c + 1).cancelled || (stored && !world.At(c + 1).reset)
                                    || world.At(c + 2).cancelled)
                      && completed == Some(!stored && !world.At(c + 1).cancelled))
      ensures IsSmoothWorld(old(world)) && session != null ==> status == Fine && !done
      ensures old(clock) <= clock && (status == Fine ==> old(clock) < clock)
      ensures status == Fine && done ==> CancelSeen(world, old(clock), clock)
    {
      done := false;
      if completed == Some(false) {
        if session == null {
          status := Fail();
          return;
        }
        var a := Ask();
        status := CallStatus(a);
        if status != Fine {
          faults := faults + 1;
          return;
        }
        assert world.At(clock - 1) == a && world.At(clock) == world.At(old(clock) + 1);
        done, status := FinishCancelledFetch(a.completion.CompletionCancelled?);
        if status != Fine || done {
          return;
        }
        if a.completion.CompletionFinished? {
          completed := Some(true);
        }
      }
      done, status := FinishCancelledFetch(false);
    }

    /** A full page lies ahead, within the preview limits. */
    ghost predicate PageAhead(world: World)
      reads this, session
    {
      && IsSmoothWorld(world) && kyuubi && pending.None? && session != null && session.open
          && PREVIEW_ROWS <= |session.remaining|
      && rows + PREVIEW_ROWS <= MAX_RESULT_ROWS && bytes + Bytes(session.remaining[..PREVIEW_ROWS]) <= MAX_RESULT_BYTES
    }

    /** The page has come. */
    twostate predicate PageCame()
      reads this, session
    {
      && old(session != null && PREVIEW_ROWS <= |session.remaining|) && session == old(session) && target
          && pending.None?
      && delivered == old(delivered) + old(session.remaining)[..PREVIEW_ROWS]
      && session.remaining == old(session.remaining)[PREVIEW_ROWS..]
      && bytes == old(bytes) + Bytes(old(session.remaining)[..PREVIEW_ROWS])
    }

    /** The next `count` rows of the session were delivered. */
    twostate predicate Took(count: nat)
      reads this, session
    {
      && session != null && session == old(session)
      && TookRows(old(session.remaining), old(delivered), old(bytes), session.remaining, delivered, bytes, count)
    }

    /** With the next `count` rows the preview stays within its limits. */
    ghost predicate HasRoomFor(count: nat)
      reads this`session, this`rows, this`bytes, session
    {
      session != null && HasRoom(session.remaining, rows, bytes, count)
    }

    /** The rows of the next page. */
    ghost function PageSize(): nat
      reads this`session, session
    {
      if session == null then 0
      else if |session.remaining| < PREVIEW_ROWS then |session.remaining| else PREVIEW_ROWS
    }

    /** `fetch_preview`: the next preview page. Without cancellation, error and limit it is
        the next full page, or all that is left, and then the result is complete. */
    method FetchPreview() returns (status: Status)
      requires Valid()
      modifies this, session
      ensures SameOperation() && old(delivered) <= delivered
      ensures status != SignInCancelled && Counted()
      ensures status == Fine ==> Valid()
      ensures status == Fine && old(pending).Some? ==> cursor == Available && delivered == old(delivered)
      ensures status == Fine && old(pending).None? ==>
                || PageEnded()
                || (cursor == (if kyuubi then Available else Unavailable) && pending.None?
                    && |delivered| == |old(delivered)| + PREVIEW_ROWS)
      ensures old(PageAhead(world)) ==> status == Fine && cursor == Available && PageCame()
      ensures old(faults) <= faults && (status == Fine <==> faults == old(faults))
      ensures old(completed) != Some(false) ==> completed == old(completed)
      ensures status != Fine ==> CursorStays()
      ensures status == Fine && cursor != Consumed && pending.None? && target && old(completed) == Some(false) ==>
                completed == Some(true) || CancelSeen(world, old(clock), clock)
      ensures old(clock) <= clock
      ensures status == Fine && old(pending).None? && cursor == Consumed ==> CancelSeen(world, old(clock), clock)
      ensures status == Fine && old(pending).None? && cursor == Complete ==>
                old(PageSize()) < PREVIEW_ROWS && Took(old(PageSize()))
      ensures status == Fine && old(pending).None? && old(HasRoomFor(PageSize()))
              && !CancelSeen(world, old(clock), clock) && !LimitSeen(world, old(clock), clock) ==>
                && Took(old(PageSize())) && pending.None?
                && cursor == if old(PageSize()) < PREVIEW_ROWS then Complete
                             else if kyuubi then Available else Unavailable
    {
      hide Bytes, CancelSeen, LimitSeen, TookRows, HasRoom, Together;
      status := Fine;
      if pending.Some? {
        cursor := Available;
        return;
      }
      var done;
      done, status := FetchPage();
      ghost var from := clock;
      if status != Fine || done {
        return;
      }
      TookFacts(old(session.remaining), old(delivered), old(bytes), session.remaining, delivered, bytes, PREVIEW_ROWS);
      done, status := FinishPreviewExecution();
      SeenStays(world, old(clock), from, clock, clock);
      ReportSeen(world, old(clock), from, clock);
      if status != Fine || done {
        return;
      }
      cursor := if kyuubi then Available else Unavailable;
    }

    /** The fetch loop of a page: whether the page ended early. */
    method FetchPage() returns (done: bool, status: Status)
      requires Valid() && pending.None?
      modifies this, session
      ensures SameOperation() && old(delivered) <= delivered
      ensures status != SignInCancelled && Counted()
      ensures status == Fine ==> Valid()
      ensures status == Fine ==> if done then PageEnded() else pending.None? && Took(PREVIEW_ROWS)
      ensures old(completed) != Some(false) ==> completed == old(completed)
      ensures status == Fine && !done ==> completed == old(completed)
      ensures old(faults) <= faults && (status == Fine <==> faults == old(faults))
      ensures status != Fine || !done ==> CursorStays()
      ensures old(PageAhead(world)) ==> status == Fine && !done && PageCame()
      ensures old(clock) <= clock
      ensures status == Fine && done && cursor == Consumed ==> CancelSeen(world, old(clock), clock)
      ensures status == Fine && done && cursor == Complete ==>
                old(PageSize()) < PREVIEW_ROWS && Took(old(PageSize())) && pending.None?
      ensures status == Fine && done && cursor != Consumed && cursor != Complete ==>
                LimitSeen(world, old(clock), clock) || !old(HasRoomFor(PageSize()))
    {
      hide Bytes, CancelSeen, LimitSeen, TookRows, HasRoom, Conserved;
      status, done := Fine, false;
      var fetched := 0;
      ghost var coming, before, sum := if session == null then [] else session.remaining, delivered, bytes;
      NothingTaken(coming, before, sum);
      while fetched < PREVIEW_ROWS
        invariant SameOperation() && old(delivered) <= delivered && status == Fine && !done
        invariant Valid() && pending.None? && 0 <= fetched <= PREVIEW_ROWS
        invariant session != null ==> TookRows(coming, before, sum, session.remaining, delivered, bytes, fetched)
        invariant session == null ==> fetched == 0
        invariant rows == old(rows) + fetched && faults == old(faults) && CursorStays() && completed == old(completed)
        invariant old(clock) <= clock
        invariant old(PageAhead(world)) ==>
                  if fetched == 0 then PageAhead(world) && NothingCame() else fetched == PREVIEW_ROWS && PageCame()
        decreases PREVIEW_ROWS - fetched
      {
        ghost var from, c1, d1, b1 := clock, if session == null then [] else session.remaining, delivered, bytes;
        var count;
        done, count, status := FetchBatch(PREVIEW_ROWS - fetched);
        SeenStays(world, old(clock), from, clock, clock);
        if status != Fine {
          return;
        }
        if done {
          if cursor != Consumed {
            PageIsOver(coming, before, rows - fetched, sum, c1, d1, b1, fetched, count);
          }
          return;
        }
        TookMore(coming, before, sum, c1, d1, b1, fetched, session.remaining, delivered, bytes, count);
        fetched := fetched + count;
      }
    }

    lemma PageIsOver(c0: seq<Row>, d0: seq<Row>, r0: nat, b0: nat, c1: seq<Row>, d1: seq<Row>, b1: nat, n: nat, m: nat)
      requires TookRows(c0, d0, b0, c1, d1, b1, n) && m <= |c1| && n + m <= PREVIEW_ROWS
      ensures var all := if |c0| < PREVIEW_ROWS then |c0| else PREVIEW_ROWS;
              && (c1 == [] ==> |c0| == n)
              && (!HasRoom(c1, r0 + n, b1, m) ==> !HasRoom(c0, r0, b0, all))
    {
      if !HasRoom(c1, r0 + n, b1, m) {
        NoRoomLater(c0, d0, r0, b0, c1, d1, b1, n, m, if |c0| < PREVIEW_ROWS then |c0| else PREVIEW_ROWS);
      }
    }

    twostate predicate NothingCame()
      reads this, session
    {
      session == old(session) && delivered == old(delivered) && bytes == old(bytes)
      && (session != null ==> session.remaining == old(session.remaining))
    }

    twostate predicate SameOperation()
      reads this
    {
      && world == old(world) && Submitted() == old(Submitted())
      && session == old(session) && whole == old(whole) && skipped == old(skipped) && drains == old(drains)
      && current == old(current) && kyuubi == old(kyuubi) && (target ==> old(target))
    }

    /** The rows of `batch` left the session and are nowhere else yet. */
    ghost predicate InHand(batch: seq<Row>)
      reads this, session
    {
      && Counted() && target && pending.None? && drains == 0 && (cursor == Available ==> kyuubi)
      && session != null && session.open && Together(skipped, delivered, batch, session.remaining) == whole
    }

    /** The part of a fetch round that can fail: a batch in hand, or the end of a cancelled fetch. */
    method FetchRows(wanted: nat) returns (ended: bool, status: Status, batch: seq<Row>)
      requires Valid() && pending.None?
      modifies this`clock, this`target, this`pending, this`cursor, this`faults, session
      ensures status != SignInCancelled && Counted()
      ensures target ==> old(target)
      ensures old(faults) <= faults && (status == Fine <==> faults == old(faults))
      ensures status != Fine || !ended ==> CursorStays()
      ensures status == Fine && ended ==> IsConsumed() && CancelSeen(world, old(clock), clock)
      ensures status == Fine && !ended ==>
              InHand(batch) && (batch == [] ==> session.remaining == []) && |batch| <= wanted
      ensures old(clock) <= clock
      ensures status == Fine && !ended ==>
                && session == old(session) && batch + session.remaining == old(session.remaining)
                && (session.limited ==> LimitSeen(world, old(clock), clock))
                && clock == old(clock) + 4
                && !world.At(old(clock)).cancelled && !world.At(old(clock) + 3).cancelled
                && (kyuubi ==> world.At(old(clock) + 1).agrees)
      ensures old(PageAhead(world)) && wanted == PREVIEW_ROWS ==>
                && status == Fine && !ended && !session.limited
                && batch == old(session.remaining)[..PREVIEW_ROWS]
                    && session.remaining == old(session.remaining)[PREVIEW_ROWS..]
    {
      hide Bytes, Together;
      batch := [];
      ended, status := FinishCancelledFetch(false);
      if status != Fine || ended {
        return;
      }
      status, batch := TakeBatch(wanted);
      if status != Fine {
        return;
      }
      // The flag can have changed while the session was fetching.
      ended, status := FinishCancelledFetch(false);
      if status != Fine || ended {
        return;
      }
      if |batch| > wanted {
        status := Fail();
      }
    }

    /** The next batch leaves the session, if there is room for it. */
    method TakeBatch(wanted: nat) returns (status: Status, batch: seq<Row>)
      requires Valid() && pending.None?
      modifies this`clock, this`faults, session
      ensures status != SignInCancelled && Counted()
      ensures old(faults) <= faults && (status == Fine <==> faults == old(faults))
      ensures status == if session == null || (kyuubi && !world.At(old(clock)).agrees) then OtherError
                        else if !old(session.open) then OtherError else CallStatus(world.At(old(clock) + 1))
      ensures status == Fine ==> InHand(batch) && (batch == [] ==> session.remaining == [])
      ensures old(clock) <= clock && (status == Fine ==> clock == old(clock) + 2)
      ensures status == Fine ==>
                batch + session.remaining == old(session.remaining) && (session.limited ==>
                    LimitSeen(world, old(clock), clock))
      ensures old(PageAhead(world)) && wanted == PREVIEW_ROWS ==>
                && status == Fine && !session.limited
                && batch == old(session.remaining)[..PREVIEW_ROWS]
                && session.remaining == old(session.remaining)[PREVIEW_ROWS..]
    {
      hide Bytes, Together;
      batch := [];
      var a := Ask();
      if session == null || (kyuubi && !a.agrees) {
        status := Fail();
        return;
      }
      a := Ask();
      status, batch := session.Fetch(wanted, a);
      if status == Fine {
        BatchMoves(skipped, delivered, batch, session.remaining);
      } else {
        faults := faults + 1;
      }
    }

    /** One round of the fetch loop: whether the page ends here, and else how many rows came. */
    method FetchBatch(wanted: nat) returns (ended: bool, count: nat, status: Status)
      requires Valid() && pending.None?
      modifies this, session
      ensures SameOperation() && old(delivered) <= delivered
      ensures status != SignInCancelled && Counted()
      ensures status == Fine ==> Valid()
      ensures status == Fine && !ended ==>
                pending.None? && 0 < count <= wanted && |delivered| == |old(delivered)| + count
      ensures status == Fine && ended ==> PageEnded()
      ensures old(PageAhead(world)) && wanted == PREVIEW_ROWS ==>
              status == Fine && !ended && count == wanted && PageCame()
      ensures old(faults) <= faults && (status == Fine <==> faults == old(faults))
      ensures old(completed) != Some(false) ==> completed == old(completed)
      ensures status != Fine || !ended ==> CursorStays()
      ensures status == Fine && !ended ==> completed == old(completed) && session != null && !session.limited
      ensures old(clock) <= clock
      ensures status == Fine && !ended ==> Took(count)
      ensures status == Fine && ended && cursor == Consumed ==> CancelSeen(world, old(clock), clock)
      ensures status == Fine && ended && cursor != Consumed ==>
                && old(session) != null && count <= wanted && count <= |old(session.remaining)|
                && delivered == old(delivered) && bytes == old(bytes)
                && (cursor == Complete ==> old(session.remaining) == [] == session.remaining)
                && (cursor != Complete ==> LimitSeen(world, old(clock), clock) || !old(HasRoomFor(count)))
    {
      hide Bytes, Together, CancelSeen, LimitSeen, TookRows, HasRoom;
      var batch;
      ended, status, batch := FetchRows(wanted);
      ghost var from := clock;
      count := |batch|;
      if status != Fine || ended {
        return;
      }
      var limited := session.limited || rows + count > MAX_RESULT_ROWS || bytes + Bytes(batch) > MAX_RESULT_BYTES;
      RoomForBatch(batch, session.remaining, rows, bytes);
      if limited || count == 0 {
        ended, status := EndPage(batch, limited);
        SeenStays(world, old(clock), from, clock, clock);
        SeenStays(world, old(clock), old(clock), from, clock);
      } else {
        Deliver(batch);
      }
    }

    method Deliver(batch: seq<Row>)
      requires InHand(batch)
      requires rows + |batch| <= MAX_RESULT_ROWS && bytes + Bytes(batch) <= MAX_RESULT_BYTES
      modifies this`rows, this`bytes, this`delivered
      ensures Valid() && delivered == old(delivered) + batch && bytes == old(bytes) + Bytes(batch)
      ensures TookRows(batch + session.remaining, old(delivered), old(bytes), session.remaining, delivered, bytes,
                       |batch|)
    {
      hide Bytes, Together;
      BatchMoves(skipped, delivered, batch, session.remaining);
      rows := rows + |batch|;
      bytes := bytes + Bytes(batch);
      delivered := delivered + batch;
    }

    /** How a page ends early: cancelled, at the end of the result, at the preview limit of
        a live Kyuubi cursor, or closed at a limit; a Kyuubi cursor loses rows only to a limit of the session. */
    ghost predicate PageEnded()
      reads this, session
    {
      if cursor == Available then kyuubi && target && pending.Some?
      else
        && !target && pending.None?
        && (cursor == Consumed || cursor == Complete || cursor == Unavailable)
        && (cursor == Unavailable && kyuubi && session != null && !session.limited ==>
            Together(skipped, delivered, [], []) == whole)
    }

    /** The page ends at the preview limit or at the end of the result. On a Kyuubi
        cursor the batch over the limit is held back. */
    method EndPage(batch: seq<Row>, limited: bool) returns (ended: bool, status: Status)
      requires InHand(batch) && (batch == [] ==> session.remaining == []) && (limited || batch == [])
      modifies this`clock, this`target, this`pending, this`cursor, this`completed, this`faults, session
      ensures Submitted() == old(Submitted()) && (target ==> old(target))
      ensures status != SignInCancelled && Counted()
      ensures old(faults) <= faults && (status == Fine <==> faults == old(faults))
      ensures old(completed) != Some(false) ==> completed == old(completed)
      ensures status != Fine ==> CursorStays()
      ensures status == Fine ==> Valid() && ended && PageEnded()
      ensures status == Fine && cursor == Available ==> batch != [] && pending == Some(batch)
      ensures status == Fine && cursor != Consumed && batch != [] ==>
                if kyuubi && !session.limited then pending == Some(batch) else cursor == Unavailable
      ensures status == Fine && cursor != Consumed ==>
                if !limited then cursor == Complete else cursor == Available || cursor == Unavailable
      ensures old(clock) <= clock && (status == Fine && cursor == Consumed ==> CancelSeen(world, old(clock), clock))
      ensures status == Fine && cursor != Consumed ==> session.remaining == old(session.remaining)
    {
      ended, status := FinishPreviewExecution();
      if status != Fine || ended {
        return;
      }
      ended := true;
      if limited && |batch| > 0 && kyuubi && !session.limited {
        pending := Some(batch);
        cursor := Available;
        return;
      }
      status := CloseOperation();
      if status != Fine {
        return;
      }
      target := false;
      cursor := if limited then Unavailable else Complete;
    }

    // ----- The drain

    /** `ExportPreview::append`: the preview keeps the most rows that fit, until it is full; when
        there is no memory for them it keeps none and is full. */
    method AppendPreview(preview: Preview, batch: seq<Row>) returns (next: Preview, ghost kept: nat)
      requires preview.rows == |delivered| <= MAX_RESULT_ROWS && (!preview.full ==> preview.rows < MAX_RESULT_ROWS)
      modifies this`clock, this`delivered
      ensures kept <= |batch| && delivered == old(delivered) + batch[..kept] && next.rows == |delivered|
      ensures preview.full ==> kept == 0 && next == preview
      ensures kept > 0 ==>
                next.bytes == preview.bytes + PREVIEW_OVERHEAD + Bytes(batch[..kept]) <= MAX_RESULT_BYTES
      ensures kept == 0 ==> next.bytes == preview.bytes
      ensures !preview.full && world.At(old(clock)).agrees ==>
                && (next.full <==> kept < |batch| || next.rows == MAX_RESULT_ROWS)
                && (kept < |batch| && next.rows < MAX_RESULT_ROWS ==>
                      preview.bytes + PREVIEW_OVERHEAD + Bytes(batch[..kept + 1]) > MAX_RESULT_BYTES)
      ensures !preview.full && !world.At(old(clock)).agrees ==> kept == 0
      ensures !preview.full && !world.At(old(clock)).agrees && batch != [] ==> next.full
      ensures next.rows <= MAX_RESULT_ROWS && (preview.bytes <= MAX_RESULT_BYTES ==> next.bytes <= MAX_RESULT_BYTES)
      ensures !next.full ==> next.rows < MAX_RESULT_ROWS && kept == |batch| && !preview.full
      ensures old(clock) <= clock
    {
      next, kept := preview, 0;
      assert batch[..0] == [] && delivered + [] == delivered;
      if preview.full {
        return;
      }
      var keep, size := 0, PREVIEW_OVERHEAD;
      while keep < |batch| && keep < MAX_RESULT_ROWS - preview.rows
          && preview.bytes + size + batch[keep].bytes <= MAX_RESULT_BYTES
        invariant 0 <= keep <= |batch| && keep <= MAX_RESULT_ROWS - preview.rows
        invariant size == PREVIEW_OVERHEAD + Bytes(batch[..keep]) && Fits(preview, batch, keep)
        invariant keep > 0 ==> Fits(preview, batch, 1)
        invariant delivered == old(delivered) && clock == old(clock)
      {
        BytesNext(batch, keep);
        size := size + batch[keep].bytes;
        keep := keep + 1;
      }
      if keep < |batch| {
        BytesNext(batch, keep);
      }
      next := preview.(full := keep < |batch| || preview.rows + keep == MAX_RESULT_ROWS);
      if keep == 0 {
        return;
      }
      var a := Ask();
      if !a.agrees {
        next := preview.(full := true);
        return;
      }
      next := next.(rows := preview.rows + keep, bytes := preview.bytes + size);
      kept := keep;
      delivered := delivered + batch[..keep];
    }

    /** What was spooled so far, and what the preview got of it. */
    ghost predicate Spooling(spool: seq<Row>, preview: Preview)
      reads this`session, this`skipped, this`delivered, this`pending, this`whole, session
    {
      && session != null && session.open
      && Together(skipped, spool, Held(), session.remaining) == whole
      && preview.rows == |delivered| <= MAX_RESULT_ROWS && preview.bytes <= MAX_RESULT_BYTES && delivered <= spool
      && (!preview.full ==> delivered == spool && preview.rows < MAX_RESULT_ROWS)
    }

    lemma StartsSpooling()
      requires Valid() && target
      ensures session != null && Spooling(delivered, NewPreview(rows, bytes))
    {
      hide Together;
    }

    /** Adds rows to the spool, if that succeeds. */
    method AppendSpool(spool: Spool, batch: seq<Row>) returns (status: Status, next: Spool)
      modifies this`clock, this`faults
      ensures clock == old(clock) + 1 && status == CallStatus(world.At(old(clock)))
      ensures faults == old(faults) + if status == Fine then 0 else 1
      ensures next == if status == Fine then spool.(rows := spool.rows + batch) else spool
    {
      status := Call();
      next := if status == Fine then spool.(rows := spool.rows + batch) else spool;
    }

    method CompleteSpool(spool: Spool) returns (status: Status, next: Spool)
      modifies this`clock, this`faults
      ensures clock == old(clock) + 1 && status == CallStatus(world.At(old(clock)))
      ensures faults == old(faults) + if status == Fine then 0 else 1
      ensures next == if status == Fine then spool.(complete := true) else spool
    {
      status := Call();
      next := if status == Fine then spool.(complete := true) else spool;
    }

    /** The work of a drain: delivered rows, the batch held back, and the rest of the session. */
    method SpoolAll(source: seq<Row>, start: Preview) returns (status: Status, spool: Spool, preview: Preview)
      requires source == delivered && Spooling(source, start)
      modifies this`clock, this`pending, this`delivered, this`faults, session
      ensures preview.rows == |delivered| <= MAX_RESULT_ROWS && preview.bytes <= MAX_RESULT_BYTES
      ensures old(delivered) <= delivered
      ensures old(faults) <= faults && (status == Fine <==> faults == old(faults))
      ensures status == Fine ==>
                && Together(skipped, spool.rows, [], []) == whole && delivered <= spool.rows && spool.complete
                && !session.open && pending.None? && CallStatus(world.At(old(clock))) == Fine
    {
      hide Together, Bytes, Fits;
      spool, preview := Spool([], false), start;
      status := Call();               // configure and start the export
      if status != Fine {
        return;
      }
      status, spool := AppendSpool(spool, source);
      if status != Fine {
        return;
      }
      assert [] + source == source;
      status, spool, preview := SpoolHeld(spool, preview);
      if status != Fine {
        return;
      }
      status, spool, preview := SpoolRest(spool, preview);
      if status != Fine {
        return;
      }
      status := CloseOperation();
      if status != Fine {
        return;
      }
      status, spool := CompleteSpool(spool);
    }

    /** The batch held back follows the delivered rows. */
    method SpoolHeld(start: Spool, first: Preview) returns (status: Status, spool: Spool, preview: Preview)
      requires start.rows == delivered && Spooling(delivered, first) && !start.complete
      modifies this`clock, this`pending, this`delivered, this`faults
      ensures preview.rows == |delivered| <= MAX_RESULT_ROWS && preview.bytes <= MAX_RESULT_BYTES
      ensures old(delivered) <= delivered && old(clock) <= clock
      ensures old(faults) <= faults && (status == Fine <==> faults == old(faults))
      ensures status == Fine ==> Spooling(spool.rows, preview) && pending.None? && !spool.complete
      ensures status != Fine ==> delivered == old(delivered) && preview == first
    {
      hide Together, Bytes, Fits;
      status, spool, preview := Fine, start, first;
      if pending.Some? {
        var batch := pending.value;
        pending := None;
        status, spool := AppendSpool(spool, batch);
        if status != Fine {
          return;
        }
        BatchMoves(skipped, start.rows, batch, session.remaining);
        ghost var kept;
        preview, kept := AppendPreview(preview, batch);
      }
    }

    /** The fetch loop of a drain. */
    method SpoolRest(start: Spool, first: Preview) returns (status: Status, spool: Spool, preview: Preview)
      requires Spooling(start.rows, first) && pending.None? && !start.complete
      modifies this`clock, this`delivered, this`faults, session
      ensures preview.rows == |delivered| <= MAX_RESULT_ROWS && preview.bytes <= MAX_RESULT_BYTES
      ensures old(delivered) <= delivered
      ensures old(faults) <= faults && (status == Fine <==> faults == old(faults))
      ensures status == Fine ==> Spooling(spool.rows, preview) && session.remaining == [] && !spool.complete
      ensures CallStatus(world.At(old(clock))) != Fine || CallStatus(world.At(old(clock) + 1)) != Fine ==>
                status != Fine
    {
      hide Together, Bytes, Fits;
      spool, preview := start, first;
      while true
        invariant Spooling(spool.rows, preview) && pending.None? && old(delivered) <= delivered && !spool.complete
        invariant session == old(session) && faults == old(faults) && old(clock) <= clock
        invariant clock > old(clock) ==>
                    CallStatus(world.At(old(clock))) == Fine && CallStatus(world.At(old(clock) + 1)) == Fine
        decreases |session.remaining|
      {
        var requested := world.At(clock).rows;
        status := Call();             // cancellation, memory, an invalid fetch count
        if status != Fine {
          return;
        }
        var batch;
        ghost var before := session.remaining;
        status, batch := FetchFor(requested);
        if status != Fine || batch == [] {
          return;
        }
        assert |before| == |batch| + |session.remaining|;
        BatchMoves(skipped, spool.rows, batch, session.remaining);
        status, spool := AppendSpool(spool, batch);
        if status != Fine {
          return;
        }
        ghost var kept;
        preview, kept := AppendPreview(preview, batch);
        status := Call();             // pace
        if status != Fine {
          return;
        }
      }
    }

    /** A fetch of a drain: it fails when a cancellation came meanwhile or too many rows come. */
    method FetchFor(requested: nat) returns (status: Status, batch: seq<Row>)
      requires session != null && session.open
      modifies this`clock, this`faults, session
      ensures session.open && old(clock) < clock
      ensures old(faults) <= faults && (status == Fine <==> faults == old(faults))
      ensures status == Fine ==>
                CallStatus(world.At(old(clock))) == Fine && CallStatus(world.At(old(clock) + 1)) == Fine
      ensures status != Fine && CallStatus(world.At(old(clock))) == Fine ==>
                CallStatus(world.At(old(clock) + 1)) != Fine || |batch| > requested
      ensures status == Fine ==> |batch| <= requested
      ensures status == Fine ==> batch + session.remaining == old(session.remaining) && (batch == [] ==>
                  session.remaining == [])
    {
      var a := Ask();
      status, batch := session.Fetch(requested, a);
      if status != Fine {
        faults := faults + 1;
        return;
      }
      status := Call();               // cancellation
      if status == Fine && |batch| > requested {
        status := Fail();
      }
    }

    /** `drain`: spools the whole result, or refuses without touching the cursor.
        The interface holds a prefix of the rows delivered for the execution. */
    method Drain(execution: nat, source: seq<Row>) returns (outcome: DrainOutcome)
      requires Valid() && (current == Some(execution) ==> source <= delivered)
      modifies this, session
      ensures Valid() && whole == old(whole) && skipped == old(skipped) && current == old(current)
      ensures Submitted() == old(Submitted()) && (session == old(session) || session == null) && world == old(world)
      ensures target ==> old(target)
      ensures outcome.Refused? <==>
                (old(current) != Some(execution) || old(cursor) != Available || |source| != old(rows) || !old(target))
      ensures outcome.Refused? || outcome.NotBound? ==>
                && session == old(session) && cursor == old(cursor) && pending == old(pending) && target == old(target)
                && delivered == old(delivered) && drains == old(drains)
      ensures outcome.NotBound? <==> !outcome.Refused? && !world.At(old(clock)).agrees
      ensures outcome.Spooled? || outcome.Lost? ==> !target && old(drains) == 0 && drains == 1
      ensures old(faults) <= faults && (outcome.Lost? <==> faults > old(faults))
      ensures outcome.Spooled? ==>
                && cursor == Downloaded && delivered <= outcome.rows
                && skipped + outcome.rows == whole && (outcome.rows == whole <==> old(InReach()))
                && (outcome.previewComplete <==> delivered == outcome.rows)
      ensures outcome.Lost? ==> cursor == Consumed
      ensures old(delivered) <= delivered
    {
      hide Together;
      if current != Some(execution) || cursor != Available || |source| != rows || !target {
        return Refused;
      }
      var a := Ask();
      if !a.agrees {
        return NotBound;
      }
      ReachIff();
      outcome := Export(source);
    }

    /** The accepted drain. */
    method Export(source: seq<Row>) returns (outcome: DrainOutcome)
      requires Valid() && target && source == delivered && |source| == rows
      modifies this, session
      ensures Valid() && whole == old(whole) && skipped == old(skipped) && current == old(current)
      ensures world == old(world)
      ensures completed == old(completed) && (session == old(session) || session == null)
      ensures outcome.Spooled? || outcome.Lost?
      ensures old(faults) <= faults && (outcome.Lost? <==> faults > old(faults))
      ensures !target && drains == 1 && old(delivered) <= delivered
      ensures outcome.Spooled? ==>
                && cursor == Downloaded && delivered <= outcome.rows
                    && (outcome.previewComplete <==> delivered == outcome.rows)
                && skipped + outcome.rows == whole && (outcome.rows == whole <==> skipped == [])
      ensures outcome.Lost? ==> cursor == Consumed
    {
      hide Together, Conserved, Spooling;
      StartsSpooling();
      cursor := Draining;
      drains := drains + 1;
      var status, spool, preview := SpoolAll(source, NewPreview(rows, bytes));
      rows, bytes := preview.rows, preview.bytes;
      target := false;
      if status == Fine {
        AllUnlessTaken(skipped, spool.rows, [], []);
        AllDelivered(skipped, spool.rows);
        cursor := Downloaded;
        assert spool.complete;
        outcome := Spooled(spool.rows, |spool.rows| == preview.rows);
      } else {
        var disconnected := Lose();
        outcome := Lost(disconnected);
      }
    }

    /** The end of a drain that failed: it cannot be continued. */
    method Lose() returns (disconnected: bool)
      requires session != null && !target && rows == |delivered| <= MAX_RESULT_ROWS && bytes <= MAX_RESULT_BYTES
      requires drains <= 1
      modifies this`clock, this`session, this`cursor, this`pending, this`target, this`faults, session
      ensures Valid() && !target && cursor == Consumed && old(faults) <= faults
      ensures disconnected <==> !world.At(old(clock)).agrees || CallStatus(world.At(old(clock) + 1)) != Fine
      ensures session == if disconnected then null else old(session)
    {
      var a := Ask();                 // whether the download has stopped
      var closed := CloseOperation();
      disconnected := !a.agrees || closed != Fine;
      if disconnected {
        Disconnect();
      }
      cursor := Consumed;
    }

    // ----- Running a statement

    /** `prepare_session`: connects again when there is no session or the connection changed. */
    method PrepareSession(reconnect: bool, isKyuubi: bool) returns (status: Status)
      requires Valid() && pending.None? && cursor == Unavailable
      modifies this`clock, this`session, this`cursor, this`pending, this`target, this`kyuubi, this`faults
      ensures Valid() && cursor == Unavailable && pending.None?
      ensures status == Fine ==> session != null && kyuubi == isKyuubi
      ensures status == if old(session) == null || reconnect then world.At(old(clock)).status else Fine
      ensures faults == old(faults) + if status == Fine then 0 else 1
      ensures clock == old(clock) + if old(session) == null || reconnect then 1 else 0
      ensures old(session) != null && !reconnect ==> status == Fine && session == old(session)
      ensures session == old(session) || session == null || (fresh(session) && !session.open)
      ensures session == old(session) ==> target == old(target)
      ensures session != old(session) ==> !target
    {
      if session == null || reconnect {
        Disconnect();
        var a := Ask();
        if a.status != Fine {
          faults := faults + 1;
          return a.status;
        }
        session := new Session();
      }
      kyuubi := isKyuubi;
      status := Fine;
    }

    /** An operation of an earlier execution is still open, without the rows that it took. */
    twostate predicate Abandoned()
      reads this, session
    {
      && session != null && session == old(session) && old(target) && target && whole == old(whole)
      && old(session.remaining) == session.remaining && rows == 0 && bytes == 0 && delivered == [] && pending.None?
      && skipped == old(skipped) + old(delivered) + old(Held())
    }

    /** `run`. When it is cancelled before the statement is submitted, an operation of an
        earlier execution stays open, and its rows are not all in reach any more. */
    method Run(execution: nat, reconnect: bool, isKyuubi: bool) returns (status: Status, submitted: bool)
      requires Valid()
      modifies this, session
      ensures Counted() && (session != old(session) && session != null ==> fresh(session))
      ensures status == Fine ==> Valid() && submitted == Submitted()
      ensures world == old(world) && current == Some(execution)
      ensures status == Fine && submitted ==>
              whole == world.At(old(clock) + SubmittedAt(old(session) == null || reconnect)).result
      ensures old(faults) <= faults && (status == Fine <==> faults == old(faults))
      ensures old(clock) <= clock
      ensures var at := old(clock) + SubmittedAt(old(session) == null || reconnect);
              status == Fine && submitted && !CancelSeen(world, old(clock), clock)
              && !LimitSeen(world, old(clock), clock) && HasResults(world.At(at + 2)) ==>
                FirstRows(world.At(at).result)
      ensures status == Fine && target ==> if submitted then skipped == [] else Abandoned()
      ensures isKyuubi && GivesPage(old(world)) ==> status == Fine && submitted && FirstPage(world.after.result)
      ensures old(target) && !reconnect && world.At(old(clock)).agrees && world.At(old(clock) + 1).cancelled ==>
                status == Fine && !submitted && Abandoned() && kyuubi == isKyuubi
    {
      hide Together, Bytes, CancelSeen, LimitSeen, HasRoom;
      submitted := false;
      status := Forget(execution);
      if status != Fine {
        return;
      }
      status := PrepareSession(reconnect, isKyuubi);
      if status != Fine {
        return;
      }
      ghost var from := clock;
      status, submitted := Enter();
      SeenStays(world, old(clock), from, clock, clock);
    }

    /** The start of `run`: it drops what the execution before it held. */
    method Forget(execution: nat) returns (status: Status)
      requires Valid()
      modifies this`clock, this`cursor, this`pending, this`current, this`completed, this`rows, this`bytes,
          this`delivered, this`skipped, this`faults
      ensures faults == old(faults) + if status == Fine then 0 else 1
      ensures Counted() && current == Some(execution) && !Submitted() && pending.None? && cursor == Unavailable
      ensures clock == old(clock) + 1 && status == if world.At(old(clock)).agrees then Fine else OtherError
      ensures status == Fine ==> Valid() && rows == 0 && bytes == 0 && delivered == []
      ensures status == Fine && target ==> skipped == old(skipped) + old(delivered) + old(Held())
    {
      hide Together, Conserved;
      ghost var taken := if target then skipped + delivered + Held() else skipped;
      TakenByThen();
      cursor, pending, current, completed := Unavailable, None, Some(execution), None;
      var a := Ask();
      if !a.agrees {
        status := Fail();
        return;
      }
      StartOver(taken);
      status := Fine;
    }

    /** Nothing of the new execution is delivered yet. */
    method StartOver(ghost taken: seq<Row>)
      requires Counted() && !Submitted() && pending.None? && cursor == Unavailable
      requires session != null && session.open ==> target
      requires target ==>
                && session != null && session.open && drains == 0
                && Together(taken, [], [], session.remaining) == whole
      modifies this`rows, this`bytes, this`delivered, this`skipped
      ensures Valid() && rows == 0 && bytes == 0 && delivered == [] && skipped == taken
    {
      hide Together;
      rows, bytes, delivered, skipped := 0, 0, [], taken;
    }

    /** All that the operation gave counts as taken. */
    lemma TakenByThen()
      requires Valid()
      ensures target ==>
                && session != null && session.open
                && Together(skipped + delivered + Held(), [], [], session.remaining) == whole
    {
      hide Together;
      if target {
        AllTaken(skipped, delivered, Held(), session.remaining);
      }
    }

    /** `run` once there is a session. */
    method Enter() returns (status: Status, submitted: bool)
      requires Valid() && session != null && pending.None? && cursor == Unavailable && delivered == [] && !Submitted()
      modifies this, session
      ensures session == old(session) && Counted() && world == old(world) && current == old(current)
      ensures status == Fine ==> Valid() && submitted == Submitted()
      ensures status == Fine && submitted ==> skipped == [] && whole == world.At(old(clock) + 1).result
      ensures old(faults) <= faults && (status == Fine <==> faults == old(faults))
      ensures submitted <==> !world.At(old(clock)).cancelled
      ensures !submitted ==> status == Fine
      ensures old(clock) <= clock
      ensures status == Fine && submitted && old(rows) == 0 && old(bytes) == 0
              && !CancelSeen(world, old(clock), clock) && !LimitSeen(world, old(clock), clock)
              && HasResults(world.At(old(clock) + 3)) ==>
                FirstRows(world.At(old(clock) + 1).result)
      ensures !submitted ==>
                && target == old(target) && whole == old(whole) && skipped == old(skipped)
                    && session.remaining == old(session.remaining)
                && rows == old(rows) && bytes == old(bytes) && delivered == [] && pending.None? && kyuubi == old(kyuubi)
      ensures GivesPage(world) && old(kyuubi) && old(bytes) == 0 ==>
              status == Fine && submitted && FirstPage(world.after.result)
    {
      hide Together, Bytes, CancelSeen, LimitSeen, HasRoom;
      var a := Ask();
      submitted := !IsSet(a, false);
      status := Fine;
      if submitted {
        completed, target := Some(false), false;
        ghost var from := clock;
        status := Submit();
        SeenStays(world, old(clock), from, clock, clock);
      }
    }

    /** The statement has rows to show, and those of its first page fit into the preview. */
    static predicate HasResults(a: Answer) { (a.state.Streaming? || a.state.Finished?) && a.state.hasResults }

    /** The first page of `result` is delivered, if it fits: all of it and then it is complete, or as
        many rows as a page has; the rest is in the session. */
    ghost predicate FirstRows(result: seq<Row>)
      reads this, session
    {
      var n := if |result| < PREVIEW_ROWS then |result| else PREVIEW_ROWS;
      HasRoom(result, 0, 0, n) ==>
        && session != null && delivered == result[..n] && session.remaining == result[n..] && pending.None?
        && cursor == if n < PREVIEW_ROWS then Complete else if kyuubi then Available else Unavailable
    }

    /** The first page of `result` is delivered, and the rest is in the session. */
    ghost predicate FirstPage(result: seq<Row>)
      reads this, session
    {
      && |result| >= PREVIEW_ROWS && session != null && kyuubi && target && cursor == Available && pending.None?
      && whole == result && delivered == result[..PREVIEW_ROWS] && session.remaining == result[PREVIEW_ROWS..]
    }

    /** The rest of `run`, from the submission on. */
    method Submit() returns (status: Status)
      requires Counted() && session != null && !target && pending.None? && cursor == Unavailable && delivered == []
      requires Submitted()
      modifies this, session
      ensures session == old(session) && Counted() && world == old(world) && current == old(current)
      ensures status == Fine ==> Valid() && skipped == [] && Submitted() && whole == world.At(old(clock)).result
      ensures old(faults) <= faults && (status == Fine <==> faults == old(faults))
      ensures old(clock) <= clock
      ensures status == Fine && old(rows) == 0 && old(bytes) == 0
              && !CancelSeen(world, old(clock), clock) && !LimitSeen(world, old(clock), clock)
              && HasResults(world.At(old(clock) + 2)) ==>
                FirstRows(world.At(old(clock)).result)
      ensures GivesPage(old(world)) && old(kyuubi) && old(rows) == 0 && old(bytes) == 0 ==>
              status == Fine && FirstPage(world.after.result)
    {
      hide Together, Bytes, CancelSeen, LimitSeen, HasRoom, TookRows;
      status := Open();
      if status == Fine {
        ghost var from := clock;
        status := Await();
        FlagSeen(world, old(clock), from, clock);
        FlagSeen(world, old(clock), from + 2, clock);
        if status == Fine {
          SeenStays(world, old(clock), StateAt(world, from) + 2, clock, clock);
        }
        ghost var result := world.At(old(clock)).result;
        FromStart(result, session.remaining, delivered, bytes,
                  if |result| < PREVIEW_ROWS then |result| else PREVIEW_ROWS);
      }
    }

    /** The operation of the statement, with all its rows to come. */
    method Open() returns (status: Status)
      requires Counted() && session != null && !target && pending.None? && cursor == Unavailable && delivered == []
      requires Submitted()
      modifies this`clock, this`target, this`whole, this`skipped, this`drains, this`faults, session
      ensures faults == old(faults) + (if status == Fine then 0 else 1) && clock == old(clock) + 1
      ensures Counted() && status == CallStatus(world.At(old(clock)))
      ensures status == Fine ==>
                && Valid() && target && session.open && skipped == []
                && whole == session.remaining == world.At(old(clock)).result
    {
      hide Together;
      var a := Ask();
      status := session.Execute(a);
      if status == Fine {
        whole, skipped, drains, target := session.remaining, [], 0, true;
        AllComing(whole);
      } else {
        faults := faults + 1;
      }
    }

    /** The place of the answer that ends the wait: a cancellation that came early is passed on before. */
    static function StateAt(world: World, at: nat): nat { if world.At(at).cancelled then at + 2 else at + 1 }

    /** Waits for the result and fetches its first page. */
    method Await() returns (status: Status)
      requires Valid() && Submitted() && target && pending.None? && cursor == Unavailable
      modifies this, session
      ensures SameOperation() && Counted()
      ensures status == Fine ==> Valid()
      ensures old(faults) <= faults && (status == Fine <==> faults == old(faults))
      ensures old(clock) <= clock && (status == Fine ==> StateAt(world, old(clock)) + 1 < clock)
      ensures var at := StateAt(world, old(clock));
              var state := world.At(at).state;
              status == Fine ==>
                && !state.Running?
                && if state == Cancelled || world.At(at + 1).cancelled then
                     !target && delivered == old(delivered) && cursor == old(cursor) && completed == old(completed)
                   else if !state.hasResults then
                     !target && delivered == old(delivered)
                     && (cursor == Consumed || (completed == Some(true) && cursor == old(cursor)))
                   else
                     && (state.Finished? ==> completed == Some(true))
                     && (old(HasRoomFor(PageSize())) && !CancelSeen(world, at + 2, clock)
                         && !LimitSeen(world, at + 2, clock) ==>
                           && Took(old(PageSize())) && pending.None?
                           && cursor == if old(PageSize()) < PREVIEW_ROWS then Complete
                                        else if kyuubi then Available else Unavailable)
      ensures old(PageAhead(world)) ==> status == Fine && cursor == Available && PageCame()
    {
      hide Together, Bytes, CancelSeen, LimitSeen, HasRoom, TookRows;
      var state, cancelled;
      status, state, cancelled := WaitForState();
      if status != Fine {
        return;
      }
      if cancelled {
        status := CloseTarget();
        return;
      }
      if !state.hasResults {
        status := EndWithout(state.Streaming?);
        return;
      }
      status := ShowResult(state.Finished?);
    }

    /** The state that the statement comes to, and whether it is cancelled by then. */
    method WaitForState() returns (status: Status, state: QueryState, cancelled: bool)
      modifies this`clock, this`faults
      ensures old(faults) <= faults && (status == Fine <==> faults == old(faults))
      ensures old(clock) <= clock
      ensures var at := StateAt(world, old(clock));
              && (status == Fine <==>
                    && (world.At(old(clock)).cancelled ==> CallStatus(world.At(old(clock) + 1)) == Fine)
                    && CallStatus(world.At(at)) == Fine && !world.At(at).state.Running?)
              && (status == Fine ==>
                    && state == world.At(at).state && clock == at + 2
                    && (cancelled <==> state == Cancelled || world.At(at + 1).cancelled))
    {
      status, state, cancelled := Fine, Running, true;
      var a := Ask();
      // A cancellation that came too early for the session to know of it.
      if IsSet(a, false) {
        status := Call();
        if status != Fine {
          return;
        }
      }
      state := world.At(clock).state;
      status := Call();
      if status != Fine {
        return;
      }
      if state.Running? {
        status := Fail();
        return;
      }
      a := Ask();
      cancelled := state == Cancelled || IsSet(a, false);
    }

    /** The columns and the first page. */
    method ShowResult(finished: bool) returns (status: Status)
      requires Valid() && Submitted() && target && pending.None?
      modifies this, session
      ensures SameOperation() && Counted()
      ensures status == Fine ==> Valid()
      ensures old(faults) <= faults && (status == Fine <==> faults == old(faults))
      ensures old(clock) < clock && (CallStatus(world.At(old(clock))) != Fine ==> status != Fine)
      ensures status == Fine && finished ==> completed == Some(true)
      ensures status == Fine && old(HasRoomFor(PageSize())) && !CancelSeen(world, old(clock), clock)
              && !LimitSeen(world, old(clock), clock) ==>
                && Took(old(PageSize())) && pending.None?
                && cursor == if old(PageSize()) < PREVIEW_ROWS then Complete
                             else if kyuubi then Available else Unavailable
      ensures old(PageAhead(world)) ==> status == Fine && cursor == Available && PageCame()
    {
      hide Together, Bytes, CancelSeen, LimitSeen, HasRoom, TookRows;
      status := Call();               // the columns
      if status != Fine {
        return;
      }
      if finished {
        completed := Some(true);
      }
      ghost var from := clock;
      status := FetchPreview();
      SeenStays(world, old(clock), from, clock, clock);
    }

    /** The end of a statement without results. */
    method EndWithout(streaming: bool) returns (status: Status)
      requires Valid() && Submitted() && session != null
      modifies this`clock, this`target, this`pending, this`cursor, this`completed, this`faults, session
      ensures Counted() && Submitted() && old(clock) <= clock
      ensures old(faults) <= faults && (status == Fine <==> faults == old(faults))
      ensures status == Fine ==> Valid() && !target
      ensures status == Fine ==> cursor == Consumed || (completed == Some(true) && cursor == old(cursor))
      ensures status == Fine && !streaming ==> completed == Some(true) && cursor == old(cursor)
    {
      hide Together;
      status := Fine;
      if streaming {
        var done;
        done, status := FinishPreviewExecution();
        if status != Fine || done {
          return;
        }
      }
      status := CloseTarget();
      if status == Fine {
        completed := Some(true);
      }
    }

    method CloseTarget() returns (status: Status)
      requires Valid() && session != null
      modifies this`clock, this`target, this`faults, session
      ensures Counted() && clock == old(clock) + 1 && status == CallStatus(world.At(old(clock)))
      ensures faults == old(faults) + if status == Fine then 0 else 1
      ensures status == Fine ==> Valid() && !target
    {
      status := CloseOperation();
      if status == Fine {
        target := false;
      }
    }

    /** The error handling of the command loop. */
    method HandleError(error: Status)
      requires Counted() && error != Fine
      modifies this`clock, this`session, this`cursor, this`pending, this`target, this`faults, session
      ensures Valid() && !target && (session == old(session) || session == null)
      ensures session == null <==>
                error != QueryError || old(session) == null || CallStatus(world.At(old(clock))) != Fine
      ensures session == null ==> cursor == Unavailable && pending.None?
      ensures session != null ==> !session.open && cursor == old(cursor) && pending == old(pending)
    {
      var disconnected := error != QueryError || session == null;
      if !disconnected {
        var closed := CloseOperation();
        disconnected := closed != Fine;
      }
      if disconnected {
        Disconnect();
      }
      target := false;
    }

    /** One command of the worker, in a world of its own. Between commands, whenever a
        cancellation target is present, the rows of the operation are conserved; those of
        the current execution are all of them if it submitted the operation, else if
        nothing had been taken from it. A drain exports exactly what is in reach. */
    method Serve(command: Command, now: World) returns (note: Note)
      requires Valid()
      modifies this, session
      ensures Valid() && (session != old(session) && session != null ==> fresh(session))
      ensures target ==> Conserved() && (InReach() <==> skipped == [])
      ensures command.Run? ==>
                && current == Some(command.execution)
                && note == Ran(old(session) == null || command.reconnect, Submitted(), old(rows) + |old(Held())|)
      ensures target ==>
                if IsSubmission(note) then whole == now.At(SubmittedAt(note.connected)).result && skipped == []
                else
                  && old(target) && whole == old(whole)
                  && |skipped| == |old(skipped)| + if note.Ran? then note.taken else 0
      ensures !command.Run? ==> !note.Ran? && (target ==> Submitted() == old(Submitted()))
      ensures note.Drained? <==> command.Drain?
      ensures note.Drained? && note.outcome.Spooled? ==>
                && old(target) && whole == old(whole) && skipped == old(skipped)
                && skipped + note.outcome.rows == whole && (note.outcome.rows == whole <==> old(InReach()))
      ensures command.Run? && command.isKyuubi && GivesPage(now) ==> Submitted() && FirstPage(now.after.result)
      ensures command.Run? && old(target) && !command.reconnect && now.At(0).agrees && now.At(1).cancelled ==>
                !Submitted() && Abandoned() && kyuubi == command.isKyuubi
      ensures command.More? && old(PageAhead(now)) ==>
              cursor == Available && PageCame() && whole == old(whole) && current == old(current)
    {
      hide Together, Bytes, Conserved, InReach, GivesPage, FirstPage;
      note := Other;
      ReachIff();
      world, clock := now, 0;
      var status := Fine;
      match command {
        case Run(execution, reconnect, isKyuubi) =>
          var connected, taken := session == null || reconnect, rows + |Held()|;
          var submitted;
          status, submitted := Run(execution, reconnect, isKyuubi);
          note := Ran(connected, Submitted(), taken);
        case More => status := FetchPreview();
        case Drain(execution, shown) =>
          // The interface holds the first rows that it was sent.
          var outcome := Drain(execution, if shown < |delivered| then delivered[..shown] else delivered);
          note := Drained(outcome);
        case Disconnect => Disconnect();
      }
      if status != Fine {
        HandleError(status);
      }
      ReachIff();
      TargetConserves();
    }

    /** What the interface can still see of the result of the open operation. */
    ghost predicate HasLeft(given: Option<seq<Row>>, dropped: nat)
      reads this, session
    {
      && session != null && given.Some? && dropped <= |given.value|
      && delivered + Held() + session.remaining == given.value[dropped..]
    }

    lemma LeftOver(dropped: nat)
      requires Valid() && target && |skipped| == dropped
      ensures HasLeft(Some(whole), dropped)
    {
    }

    /** Any sequence of commands in any worlds, judged by what they did and what the server
        gave. With a target present the rows of the current execution are those that the
        server gave for the last submitted statement, in order, without the first ones: those
        that the executions since then dropped which were cancelled before their submission.
        A drain that succeeds spools the same. So the whole result is in reach, and is
        spooled, if and only if they dropped none. */
    method Work(commands: seq<(Command, World)>) returns (log: seq<Note>)
      requires Valid() && !target
      modifies this, session
      ensures Valid() && |log| == |commands|
      ensures target ==> HasLeft(Given(commands, log), Dropped(log)) && (InReach() <==> Dropped(log) == 0)
      ensures forall k :: 0 <= k < |log| && log[k].Drained? && log[k].outcome.Spooled? ==>
                IsRestOf(log[k].outcome.rows, Given(commands, log[..k]), Dropped(log[..k]))
    {
      hide Together, Bytes, Conserved, InReach, Valid, GivesPage, PageAhead, PageCame, FirstPage, Abandoned;
      hide HasLeft, Given, Dropped, IsRestOf;
      log := [];
      for i := 0 to |commands|
        invariant Valid() && |log| == i
        invariant session == old(session) || session == null || fresh(session)
        invariant target ==> Given(commands, log) == Some(whole) && Dropped(log) == |skipped|
        invariant forall k :: 0 <= k < |log| && log[k].Drained? && log[k].outcome.Spooled? ==>
                    IsRestOf(log[k].outcome.rows, Given(commands, log[..k]), Dropped(log[..k]))
      {
        ghost var before := log;
        ghost var taken, result := skipped, whole;
        var note := Serve(commands[i].0, commands[i].1);
        if note.Drained? && note.outcome.Spooled? {
          RestOf(taken, note.outcome.rows, result);
        }
        log := log + [note];
        LogGrows(commands, before, note);
        assert forall k :: 0 <= k <= |before| ==> log[..k] == before[..k];
      }
      ReachIff();
      if target {
        LeftOver(Dropped(log));
      }
    }
  }

  datatype Command =
    | Run(execution: nat, reconnect: bool, isKyuubi: bool)
    | More
    | Drain(execution: nat, shown: nat)
    | Disconnect

  /** What a command did: a run connected or found its session, submitted its statement or
      not, and dropped `taken` rows that the execution before it had delivered or held back. */
  datatype Note = Ran(connected: bool, submitted: bool, taken: nat) | Drained(outcome: DrainOutcome) | Other

  predicate IsSubmission(note: Note) { note.Ran? && note.submitted }

  /** The answer that a submission gets: after the check of the budget, the connection if
      there is none, and the cancellation flag. */
  function SubmittedAt(connected: bool): nat { if connected then 3 else 2 }

  /** The rows that the server gave for the last statement that was submitted. */
  function Given(commands: seq<(Command, World)>, log: seq<Note>): (rows: Option<seq<Row>>)
    requires |log| <= |commands|
  {
    if log == [] then None
    else
      var n := |log| - 1;
      if IsSubmission(log[n]) then Some(commands[n].1.At(SubmittedAt(log[n].connected)).result)
      else Given(commands, log[..n])
  }

  /** How many rows the executions since then dropped that did not submit a statement. */
  function Dropped(log: seq<Note>): nat {
    if log == [] then 0
    else
      var n := |log| - 1;
      if IsSubmission(log[n]) then 0 else Dropped(log[..n]) + if log[n].Ran? then log[n].taken else 0
  }

  /** `rows` is all that was given but the first `dropped` rows. */
  predicate IsRestOf(rows: seq<Row>, given: Option<seq<Row>>, dropped: nat): (all: bool)
    ensures all ==> given.Some? && (rows == given.value <==> dropped == 0)
  {
    given.Some? && dropped <= |given.value| && rows == given.value[dropped..]
  }

  lemma RestOf(dropped: seq<Row>, rows: seq<Row>, given: seq<Row>)
    requires dropped + rows == given
    ensures IsRestOf(rows, Some(given), |dropped|)
  {
  }

  lemma LogGrows(commands: seq<(Command, World)>, log: seq<Note>, note: Note)
    requires |log| < |commands|
    ensures Dropped(log + [note]) ==
            if IsSubmission(note) then 0 else Dropped(log) + if note.Ran? then note.taken else 0
    ensures Given(commands, log + [note]) ==
            if IsSubmission(note) then Some(commands[|log|].1.At(SubmittedAt(note.connected)).result)
            else Given(commands, log)
  {
    assert (log + [note])[..|log|] == log;
  }

  // ----- The failing run

  /** `n` rows without content. */
  function Rows(n: nat): (rows: seq<Row>)
    ensures |rows| == n
  {
    seq(n, i => Row(i, 0))
  }

  lemma {:induction false} NoBytes(rows: seq<Row>)
    requires forall i :: 0 <= i < |rows| ==> rows[i].bytes == 0
    ensures Bytes(rows) == 0
  {
    if rows != [] {
      NoBytes(rows[1..]);
    }
  }

  /** All goes well, except that `cancelled` says whether the query was cancelled before it began. */
  function GoodWorld(result: seq<Row>, cancelled: bool): World {
    World([], Answer(cancelled, false, true, Fine, PREVIEW_ROWS, false, result, Finished(true),
        CompletionFinished(true)))
  }

  /** Run, a run that is cancelled before its submission, More: the second page of the first
      statement is delivered as the only page of the second execution, and the cursor is
      available for a drain that lacks the first page. */
  method OldRowsUnderNewExecution() returns (runner: Runner)
    ensures fresh(runner) && runner.Valid() && runner.current == Some(2)
    ensures runner.cursor == Available && runner.target && !runner.InReach()
    ensures runner.whole == Rows(3 * PREVIEW_ROWS) && runner.delivered == runner.whole[PREVIEW_ROWS..2 * PREVIEW_ROWS]
  {
    hide Bytes, Together;
    var result := Rows(3 * PREVIEW_ROWS);
    NoBytes(result[..PREVIEW_ROWS]);
    NoBytes(result[PREVIEW_ROWS..][..PREVIEW_ROWS]);
    runner := new Runner(GoodWorld(result, false));
    var note := runner.Serve(Run(1, false, true), GoodWorld(result, false));
    note := runner.Serve(Run(2, false, true), GoodWorld(result, true));
    note := runner.Serve(More, GoodWorld(result, false));
    assert |runner.whole| > |runner.delivered| + |runner.session.remaining|;
  }
}
