/** The automatic test of purcsmg.c over its own variables: run_info and run_times. */
module Autotest {
  import opened Bytes
  import opened Utf8
  import opened AutotestModel
  import opened AutotestSafety
  import opened AutotestRuns

  /** The fields of struct run_info for the test. The ghost field is the state of the model that
      they stand for; it also records what the renderer owes and what was sent to it. */
  class RunInfo {
    const settings: Settings
    var nrDestroyedWins: nat
    const state: array<Phase>
    const wait: array<bool>
    const lenWrotten: array<nat>
    const changes: array<nat>
    var runTimes: nat
    var stopped: bool
    ghost var windows: seq<Window>

    /** The variables agree with the model. */
    ghost predicate Shaped()
      reads this`windows, state, wait, lenWrotten, changes
    {
      && 0 < settings.nrWindows <= MAX_NR_WINDOWS && |settings.maxChanges| == |windows| == settings.nrWindows
      && state.Length == wait.Length == lenWrotten.Length == changes.Length == MAX_NR_WINDOWS
      && lenWrotten != changes
      && (forall i {:trigger windows[i]} :: 0 <= i < |windows| ==> windows[i].phase == state[i])
      && (forall i {:trigger windows[i]} :: 0 <= i < |windows| ==> windows[i].wait == wait[i])
      && (forall i {:trigger windows[i]} :: 0 <= i < |windows| ==> windows[i].lenWrotten == lenWrotten[i])
      && (forall i {:trigger windows[i]} :: 0 <= i < |windows| ==> windows[i].changes == changes[i])
      && (forall i {:trigger windows[i]} :: 0 <= i < |windows| ==> windows[i].maxChanges == settings.maxChanges[i])
    }

    ghost function Value(): Test
      reads this`windows, this`runTimes, this`nrDestroyedWins, this`stopped
    {
      Test(windows, runTimes, nrDestroyedWins, stopped)
    }

    ghost predicate Valid()
      reads this, state, wait, lenWrotten, changes
    {
      Shaped() && TestOk(settings, Value())
    }

    /** init_autotest */
    constructor (settings: Settings)
      requires settings.Valid()
      ensures Valid() && Value() == Begin(settings) && this.settings == settings
      ensures fresh(state) && fresh(wait) && fresh(lenWrotten) && fresh(changes)
    {
      this.settings := settings;
      nrDestroyedWins, runTimes, stopped := 0, 0, false;
      state := new Phase[MAX_NR_WINDOWS](_ => Initial);
      wait := new bool[MAX_NR_WINDOWS](_ => false);
      lenWrotten := new nat[MAX_NR_WINDOWS](_ => 0);
      changes := new nat[MAX_NR_WINDOWS](_ => 0);
      windows := Begin(settings).windows;
      new;
      BeginOk(settings);
    }

    /** pcrdr_send_request, and the note that the window waits. */
    method SendRequest(win: nat, m: Message, works: bool) returns (result: int)
      requires Shaped() && win < settings.nrWindows
      modifies this`windows, wait
      ensures Shaped() && Done(Send(old(windows[win]), m, works), win, result)
      ensures windows == old(windows)[win := windows[win]]
    {
      if !works {
        return -1;
      }
      wait[win] := true;
      windows := windows[win := windows[win].Sent(m)];
      result := 0;
    }

    /** A handler left `turn` behind. */
    ghost predicate Done(turn: Turn, win: nat, result: int)
      reads this`windows
    {
      win < |windows| && windows[win] == turn.window && result == if turn.goesOn then 0 else -1
    }

    method NoteWritten(win: nat, n: nat)
      requires Shaped() && win < settings.nrWindows
      modifies this`windows, lenWrotten
      ensures Shaped() && windows == old(windows)[win := old(windows)[win].(lenWrotten := n)]
    {
      lenWrotten[win] := n;
      windows := windows[win := windows[win].(lenWrotten := n)];
    }

    /** load_or_write_doucment */
    method LoadOrWriteDocument(win: nat, works: bool) returns (result: int)
      requires Shaped() && win < settings.nrWindows
      modifies this`windows, wait, lenWrotten
      ensures Shaped() && Done(LoadOrWrite(settings, old(windows[win]), runTimes, works), win, result)
      ensures windows == old(windows)[win := windows[win]]
    {
      if settings.lenContent > settings.inMemory && runTimes % 2 == 1 {
        var n := Check(settings.document, DEF_LEN_ONE_WRITE);
        if n == 0 {
          return -1;
        }
        NoteWritten(win, n);
        result := SendRequest(win, WriteBegin(settings.document[..n]), works);
      } else {
        NoteWritten(win, settings.lenContent);
        result := SendRequest(win, Load(settings.document), works);
      }
    }

    /** write_more_doucment */
    method WriteMoreDocument(win: nat, works: bool) returns (result: int)
      requires Shaped() && win < settings.nrWindows && lenWrotten[win] <= |settings.document|
      modifies this`windows, wait, lenWrotten
      ensures Shaped() && old(windows[win]).lenWrotten <= |settings.document|
      ensures Done(WriteOn(settings, old(windows[win]), works), win, result)
      ensures windows == old(windows)[win := windows[win]]
    {
      assert windows[win].lenWrotten == lenWrotten[win];
      var rest := settings.document[lenWrotten[win]..];
      if lenWrotten[win] + DEF_LEN_ONE_WRITE > settings.lenContent {
        NoteWritten(win, settings.lenContent);
        result := SendRequest(win, WriteEnd(rest), works);
      } else {
        var n := Check(rest, DEF_LEN_ONE_WRITE);
        if n == 0 {
          return -1;
        }
        NoteWritten(win, lenWrotten[win] + n);
        result := SendRequest(win, WriteMore(rest[..n]), works);
      }
    }

    /** change_document */
    method Change(win: nat, works: bool) returns (result: int)
      requires Shaped() && win < settings.nrWindows
      modifies this`windows, wait, changes
      ensures Shaped() && Done(ChangeDocument(settings, old(windows[win]), runTimes, works), win, result)
      ensures windows == old(windows)[win := windows[win]]
    {
      result := SendRequest(win, Message.Change(ChangeMethod(settings, runTimes)), works);
      if result == 0 {
        assert windows[win].changes == changes[win];
        changes[win] := changes[win] + 1;
        windows := windows[win := windows[win].(changes := changes[win])];
      }
    }

    /** The switch of run_autotest. */
    method RunWindow(win: nat, works: bool) returns (result: int)
      requires Shaped() && win < settings.nrWindows && lenWrotten[win] <= |settings.document|
      modifies this`windows, wait, lenWrotten, changes
      ensures Shaped() && old(windows[win]).lenWrotten <= |settings.document|
      ensures Done(Tick(settings, old(windows[win]), runTimes, nrDestroyedWins, works), win, result)
      ensures windows == old(windows)[win := windows[win]]
    {
      TickIs(settings, windows[win], runTimes, nrDestroyedWins, works);
      if state[win] == Fatal {
        return -1;
      }
      if wait[win] {
        return 0;
      }
      match state[win] {
        case Initial => result := SendRequest(win, CreatePlainWindow, works);
        case WindowCreated => result := LoadOrWriteDocument(win, works);
        case DocumentWrotten => result := WriteMoreDocument(win, works);
        case DocumentLoaded => result := Change(win, works);
        case DocumentTesting =>
          if settings.noAutoChange {
            return 0;
          }
          if changes[win] == settings.maxChanges[win] {
            result := SendRequest(win, Message.Reset, works);
          } else {
            result := Change(win, works);
          }
        case DocumentReset => result := SendRequest(win, DestroyPlainWindow, works);
        case WindowDestroyed => result := if nrDestroyedWins == settings.nrWindows then -1 else 0;
      }
    }

    /** run_autotest, as the main loop calls it: a result of -1 ends the test. */
    method RunAutotest(works: bool)
      requires Valid() && !stopped
      modifies this`runTimes, this`stopped, this`windows, wait, lenWrotten, changes
      ensures Valid() && Leads(settings, old(Value()), Clock(works), Value())
    {
      ghost var turn, next := Foresee(works);
      var win := runTimes % settings.nrWindows;
      runTimes := (runTimes + 1) % 0x1_0000_0000;
      var result := RunWindow(win, works);
      stopped := result < 0;
      assert windows[win] == turn.window;
      assert Value() == next;
    }

    /** What will come of a tick. */
    ghost method Foresee(works: bool) returns (turn: Turn, next: Test)
      requires Valid() && !stopped
      ensures var win, times := runTimes % settings.nrWindows, (runTimes + 1) % 0x1_0000_0000;
        && lenWrotten[win] == windows[win].lenWrotten <= |settings.document|
        && turn == Tick(settings, windows[win], times, nrDestroyedWins, works)
        && next == Test(windows[win := turn.window], times, nrDestroyedWins, !turn.goesOn)
        && TestOk(settings, next) && Leads(settings, Value(), Clock(works), next)
    {
      turn, next := Foreseen(settings, Value(), works);
      assert windows[runTimes % settings.nrWindows].lenWrotten == lenWrotten[runTimes % settings.nrWindows];
    }

    /** my_response_handler */
    method ResponseHandler(win: nat, response: Response)
      requires Valid() && Enabled(settings, Value(), Answer(win, response))
      modifies this`nrDestroyedWins, this`windows, state, wait
      ensures Valid() && Leads(settings, old(Value()), Answer(win, response), Value())
    {
      ghost var next := Step(settings, Value(), Answer(win, response));
      AnswerKeeps(settings, Value(), win, response);
      HandleResponse(win, response);
      assert Value() == next;
    }

    method HandleResponse(win: nat, response: Response)
      requires Shaped() && win < settings.nrWindows && windows[win].pending > 0
      modifies this`nrDestroyedWins, this`windows, state, wait
      ensures Shaped() && windows == old(windows)[win := Respond(settings, old(windows[win]), response)]
      ensures nrDestroyedWins == old(nrDestroyedWins) + if Destroys(old(windows[win]), response) then 1 else 0
    {
      ghost var w := windows[win];
      if response.Cancelled? {
        windows := windows[win := w.(pending := w.pending - 1)];
        return;
      }
      NoteAnswer(win);
      var early := MoveOn(win);
      if !early {
        Judge(win, response.ok);
      }
    }

    method NoteAnswer(win: nat)
      requires Shaped() && win < settings.nrWindows && windows[win].pending > 0
      modifies this`windows, wait
      ensures Shaped()
      ensures var w := old(windows)[win]; windows == old(windows)[win := w.(pending := w.pending - 1, wait := false)]
    {
      wait[win] := false;
      windows := windows[win := windows[win].(pending := windows[win].pending - 1, wait := false)];
    }

    /** The end of my_response_handler: only while changes are tested may a request fail. */
    method Judge(win: nat, ok: bool)
      requires Shaped() && win < settings.nrWindows
      modifies this`windows, state
      ensures Shaped() && windows == old(windows)[win := old(windows[win]).(phase := windows[win].phase)]
      ensures windows[win].phase == if old(windows[win]).phase != DocumentTesting && !ok then Fatal else old(windows[win]).phase
    {
      if state[win] != DocumentTesting && !ok {
        state[win] := Fatal;
        windows := windows[win := windows[win].(phase := Fatal)];
      }
    }

    /** The switch of my_response_handler; whether it returns at once. */
    method MoveOn(win: nat) returns (early: bool)
      requires Shaped() && win < settings.nrWindows
      modifies this`nrDestroyedWins, this`windows, state
      ensures Shaped() && windows == old(windows)[win := old(windows[win]).(phase := NextPhase(settings, old(windows[win])))]
      ensures nrDestroyedWins == old(nrDestroyedWins) + if old(windows[win]).phase == DocumentReset then 1 else 0
      ensures early <==> old(windows[win]).phase == DocumentTesting && windows[win].phase == DocumentReset
    {
      ghost var w := windows[win];
      early := false;
      windows := windows[win := w.(phase := NextPhase(settings, w))];
      match state[win] {
        case Initial => state[win] := WindowCreated;
        case WindowCreated =>
          if lenWrotten[win] < settings.lenContent {
            state[win] := DocumentWrotten;
          } else {
            state[win] := DocumentLoaded;
          }
        case DocumentWrotten =>
          if lenWrotten[win] == settings.lenContent {
            state[win] := DocumentLoaded;
          }
        case DocumentLoaded => state[win] := DocumentTesting;
        case DocumentTesting =>
          if changes[win] == settings.maxChanges[win] {
            state[win] := DocumentReset;
            early := true;
          }
        case DocumentReset =>
          state[win] := WindowDestroyed;
          nrDestroyedWins := nrDestroyedWins + 1;
        case WindowDestroyed =>
        case Fatal =>
      }
    }
  }
}
