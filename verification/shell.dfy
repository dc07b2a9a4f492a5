/**
  The argument handling of the mini shell (myshell.c): finding the pipe
  token, detecting a trailing "&", the argv arrays the programs are started
  with, and the flags that decide whether SIGCHLD is left to reap background
  children. fork, execvp, pipe, dup2 and wait are not modelled; the launch
  plan records what would be started with which argv.
*/
module Shell {
  import opened Wrappers

  /** An argv array: NULL entries are None; execvp reads up to the first NULL. */
  type Argv = seq<Option<string>>

  const PipeToken: string := "|"
  const BackgroundToken: string := "&"

  // ---------------------------------------------------------------------------
  // find_pipe_char (myshell.c:69-78)
  // ---------------------------------------------------------------------------

  /** The index of the first "|" among the words, if any. */
  function PipeIndex(words: seq<string>): (r: Option<nat>)
    ensures r.None? <==> forall i | 0 <= i < |words| :: words[i] != PipeToken
    ensures r.Some? ==> r.value < |words| && words[r.value] == PipeToken
    ensures r.Some? ==> forall i | 0 <= i < r.value :: words[i] != PipeToken
  {
    if |words| == 0 then None
    else if words[0] == PipeToken then Some(0)
    else
      match PipeIndex(words[1..])
      case None => None
      case Some(i) => Some(i + 1)
  }

  /** find_pipe_char: the index of the first "|", or -1 when there is none. */
  method FindPipeChar(words: seq<string>) returns (found: int)
    ensures found == (match PipeIndex(words) case None => -1 case Some(i) => i)
    ensures -1 <= found < |words|
  {
    found := -1;
    var i := 0;
    while i < |words|
      invariant 0 <= i <= |words|
      invariant forall k | 0 <= k < i :: words[k] != PipeToken
    {
      if words[i] == PipeToken {
        found := i;
        break;
      }
      i := i + 1;
    }
    PipeIndexFirst(words, found);
  }

  /** Any index holding the first "|" is the one PipeIndex finds, and no "|" means None. */
  lemma PipeIndexFirst(words: seq<string>, found: int)
    requires -1 <= found < |words|
    requires found == -1 ==> forall k | 0 <= k < |words| :: words[k] != PipeToken
    requires found >= 0 ==> words[found] == PipeToken && forall k | 0 <= k < found :: words[k] != PipeToken
    ensures found == (match PipeIndex(words) case None => -1 case Some(i) => i)
  {
  }

  // ---------------------------------------------------------------------------
  // run_in_background (myshell.c:80-86)
  // ---------------------------------------------------------------------------

  datatype RunMode = Background | Foreground

  /** A command runs in the background exactly when its last word is "&". */
  function RunInBackground(words: seq<string>): (m: RunMode)
    requires |words| >= 1
    ensures m.Background? <==> words[|words| - 1] == BackgroundToken
  {
    if words[|words| - 1] == BackgroundToken then Background else Foreground
  }

  // ---------------------------------------------------------------------------
  // argv arrays
  // ---------------------------------------------------------------------------

  /** The arglist the shell is handed: count words followed by one NULL. */
  function ArgvOf(words: seq<string>): (a: Argv)
    ensures |a| == |words| + 1 && a[|words|].None?
    ensures forall i | 0 <= i < |words| :: a[i] == Some(words[i])
  {
    seq(|words|, i requires 0 <= i < |words| => Some(words[i])) + [None]
  }

  /** What execvp receives: the words up to, not including, the first NULL. */
  function ExecWords(a: Argv): (ws: seq<string>)
    ensures |ws| <= |a|
    ensures forall i | 0 <= i < |ws| :: a[i] == Some(ws[i])
    ensures |ws| < |a| ==> a[|ws|].None?
  {
    if |a| == 0 || a[0].None? then []
    else [a[0].value] + ExecWords(a[1..])
  }

  /** An argv whose first NULL is at position k passes exactly its first k words. */
  lemma {:induction false} ExecWordsUpTo(a: Argv, k: nat, ws: seq<string>)
    requires k < |a| && a[k].None? && |ws| == k
    requires forall i | 0 <= i < k :: a[i] == Some(ws[i])
    ensures ExecWords(a) == ws
    decreases k
  {
    if k > 0 {
      ExecWordsUpTo(a[1..], k - 1, ws[1..]);
    }
  }

  // ---------------------------------------------------------------------------
  // set_run_mode (myshell.c:101-127)
  // ---------------------------------------------------------------------------

  /** g_handling_sigchild_signals and g_saved_old_action. */
  datatype SigState = SigState(handling: bool, saved: bool)

  const InitialSig := SigState(true, false)

  /**
    The sigaction calls set_run_mode makes: reading the original SIGCHLD
    action, installing the no-wait action, and restoring the original.
  */
  datatype SigCall = SaveOld | InstallNoWait | RestoreOld

  datatype ModeChange = ModeChange(state: SigState, calls: seq<SigCall>)

  /**
    Background stops handling SIGCHLD (saving the original action the first
    time only); Foreground restores the original action if it was replaced.
    Asking for the mode already in force makes no call.
  */
  function SetRunMode(st: SigState, mode: RunMode): (r: ModeChange)
    ensures r.state.handling == mode.Foreground?
    ensures r.state.saved == (st.saved || SaveOld in r.calls)
    ensures (SaveOld in r.calls) <==> mode.Background? && st.handling && !st.saved
    ensures (InstallNoWait in r.calls) <==> mode.Background? && st.handling
    ensures (RestoreOld in r.calls) <==> mode.Foreground? && !st.handling
    ensures r.state.handling == st.handling ==> r.calls == [] && r.state == st
  {
    match mode
    case Background =>
      if st.handling then
        var save := if st.saved then [] else [SaveOld];
        ModeChange(SigState(false, true), save + [InstallNoWait])
      else ModeChange(st, [])
    case Foreground =>
      if !st.handling then ModeChange(SigState(true, st.saved), [RestoreOld])
      else ModeChange(st, [])
  }

  /** Setting the same mode twice is the same as setting it once. */
  lemma SetRunModeIdempotent(st: SigState, mode: RunMode)
    ensures SetRunMode(SetRunMode(st, mode).state, mode) == ModeChange(SetRunMode(st, mode).state, [])
  {
  }

  /** The state and sigaction calls after a run of commands in the given modes. */
  function RunModes(st: SigState, modes: seq<RunMode>): ModeChange
    decreases |modes|
  {
    if |modes| == 0 then ModeChange(st, [])
    else
      var first := SetRunMode(st, modes[0]);
      var rest := RunModes(first.state, modes[1..]);
      ModeChange(rest.state, first.calls + rest.calls)
  }

  function CountOf(calls: seq<SigCall>, c: SigCall): nat
  {
    if |calls| == 0 then 0 else (if calls[0] == c then 1 else 0) + CountOf(calls[1..], c)
  }

  lemma {:induction false} CountOfAppend(a: seq<SigCall>, b: seq<SigCall>, c: SigCall)
    ensures CountOf(a + b, c) == CountOf(a, c) + CountOf(b, c)
  {
    if |a| > 0 {
      assert (a + b)[1..] == a[1..] + b;
      CountOfAppend(a[1..], b, c);
    } else {
      assert a + b == b;
    }
  }

  lemma {:induction false} CountOfAbsent(a: seq<SigCall>, c: SigCall)
    requires c !in a
    ensures CountOf(a, c) == 0
  {
    if |a| > 0 {
      CountOfAbsent(a[1..], c);
    }
  }

  /** Reachable flag states: the handler is only ever replaced after the original was saved. */
  predicate Consistent(st: SigState)
  {
    !st.handling ==> st.saved
  }

  /** Over any sequence of commands the flags stay consistent, and the original is saved once a save was made. */
  lemma {:induction false} ModesKeepConsistent(st: SigState, modes: seq<RunMode>)
    requires Consistent(st)
    ensures Consistent(RunModes(st, modes).state)
    ensures RunModes(st, modes).state.saved == (st.saved || SaveOld in RunModes(st, modes).calls)
    decreases |modes|
  {
    if |modes| > 0 {
      var first := SetRunMode(st, modes[0]);
      ModesKeepConsistent(first.state, modes[1..]);
    }
  }

  /** Over any sequence of commands the original action is read at most once, and never once it is saved. */
  lemma {:induction false} SavedAtMostOnce(st: SigState, modes: seq<RunMode>)
    requires Consistent(st)
    ensures CountOf(RunModes(st, modes).calls, SaveOld) <= (if st.saved then 0 else 1)
    decreases |modes|
  {
    if |modes| > 0 {
      var first := SetRunMode(st, modes[0]);
      var rest := RunModes(first.state, modes[1..]);
      SavedAtMostOnce(first.state, modes[1..]);
      CountOfAppend(first.calls, rest.calls, SaveOld);
      if SaveOld !in first.calls {
        CountOfAbsent(first.calls, SaveOld);
      } else {
        assert first.calls == [SaveOld, InstallNoWait];
        assert CountOf(first.calls, SaveOld) == 1;
      }
    }
  }

  /** Every restore of the original action comes after the original was saved. */
  lemma {:induction false} RestoreAfterSave(st: SigState, modes: seq<RunMode>)
    requires Consistent(st)
    ensures forall i | 0 <= i < |RunModes(st, modes).calls| && RunModes(st, modes).calls[i] == RestoreOld ::
      st.saved || SaveOld in RunModes(st, modes).calls[..i]
    decreases |modes|
  {
    if |modes| > 0 {
      var first := SetRunMode(st, modes[0]);
      var rest := RunModes(first.state, modes[1..]);
      RestoreAfterSave(first.state, modes[1..]);
      var all := first.calls + rest.calls;
      assert RunModes(st, modes).calls == all;
      forall i | 0 <= i < |all| && all[i] == RestoreOld
        ensures st.saved || SaveOld in all[..i]
      {
        if i < |first.calls| {
          assert first.calls[i] == RestoreOld;
        } else {
          var j := i - |first.calls|;
          assert rest.calls[j] == RestoreOld;
          PrefixOfAppend(first.calls, rest.calls, j);
        }
      }
    }
  }

  lemma PrefixOfAppend<T>(a: seq<T>, b: seq<T>, j: nat)
    requires j <= |b|
    ensures (a + b)[..|a| + j] == a + b[..j]
  {
  }

  // ---------------------------------------------------------------------------
  // process_arglist, run_program, run_piped_programs (myshell.c:88-99, 129-199)
  // ---------------------------------------------------------------------------

  /**
    What gets started: one program with its argv and mode, or two programs
    whose argvs are the parts of the same array around the pipe token.
  */
  datatype Launch =
    | Single(argv: Argv, mode: RunMode)
    | Piped(arglist: Argv, second: nat)

  datatype Dispatch = Dispatch(status: int, launch: Launch, sig: ModeChange)

  /**
    process_arglist: with a "|" at index p, NULL it out and start the words
    before it piped into the words after it, in the foreground; otherwise a
    trailing "&" is NULLed out and the program runs in the background, or it
    runs in the foreground with its words unchanged. The shell always carries
    on (status 1).
  */
  function ProcessArglist(words: seq<string>, st: SigState): (d: Dispatch)
    requires |words| >= 1
    ensures d.status == 1
    ensures d.launch.Piped? <==> PipeToken in words
    ensures d.launch.Piped? ==>
      var p := PipeIndex(words).value;
      && |d.launch.arglist| == |words| + 1
      && d.launch.second == p + 1
      && d.launch.arglist == ArgvOf(words)[p := None]
      && ExecWords(d.launch.arglist) == words[..p]
      && ExecWords(d.launch.arglist[p + 1..]) == words[p + 1..]
      && d.sig == SetRunMode(st, Foreground)
    ensures d.launch.Single? ==>
      && d.launch.mode == RunInBackground(words)
      && d.sig == SetRunMode(st, d.launch.mode)
      && (d.launch.mode.Foreground? ==> ExecWords(d.launch.argv) == words)
      && (d.launch.mode.Background? ==> ExecWords(d.launch.argv) == words[..|words| - 1])
      && (d.launch.mode.Foreground? ==> d.launch.argv == ArgvOf(words))
      && (d.launch.mode.Background? ==> d.launch.argv == ArgvOf(words)[|words| - 1 := None])
  {
    var a := ArgvOf(words);
    match PipeIndex(words)
    case None =>
      var mode := RunInBackground(words);
      var argv := if mode.Background? then a[|words| - 1 := None] else a;
      ExecWordsUpTo(a[|words| - 1 := None], |words| - 1, words[..|words| - 1]);
      ExecWordsUpTo(a, |words|, words);
      Dispatch(1, Single(argv, mode), SetRunMode(st, mode))
    case Some(p) =>
      var split := a[p := None];
      ExecWordsUpTo(split, p, words[..p]);
      ExecWordsUpTo(split[p + 1..], |words| - p - 1, words[p + 1..]);
      Dispatch(1, Piped(split, p + 1), SetRunMode(st, Foreground))
  }
}
