// rbb_daisychain.py: a batch of remote-bitbang commands is run through one TAP
// after the other, each TAP's TDO replies patched into the next TAP's scans.
// The result is that of stepping all TAPs in lock step.

module DaisyChain {

  const READ: nat := 82 // 'R'
  const SCAN_LOW: nat := 48 // '0'
  const SCAN_HIGH: nat := 55 // '7'
  const ONE: nat := 49 // '1'

  /** The TAPs as deterministic automata: TAP i takes a command, and shows TDO without changing state. */
  datatype Devices<!S(!new)> = Devices(step: (nat, S, nat) -> S, tdo: (nat, S) -> bool)

  /** A command that sets TCK, TMS and TDI; its lowest bit is TDI. */
  predicate IsScan(c: nat) {
    SCAN_LOW <= c <= SCAN_HIGH
  }

  /** c with TDI taken from reply v: command &= 0xfe, then |= 1 if v is '1'. */
  function PatchOne(c: nat, v: nat): nat {
    c / 2 * 2 + if v == ONE then 1 else 0
  }

  function Reply(tdo: bool): nat {
    if tdo then ONE else SCAN_LOW
  }

  // ---------------------------------------------------------------------
  // One TAP
  // ---------------------------------------------------------------------

  /** A TAP run on a list of commands: its final state and one reply for each read. */
  function TapRun<S(!new)>(d: Devices<S>, i: nat, s: S, commands: seq<nat>): (S, seq<nat>)
    decreases |commands|
  {
    if commands == [] then (s, [])
    else if commands[0] == READ then
      var (s', r) := TapRun(d, i, s, commands[1..]);
      (s', [Reply(d.tdo(i, s))] + r)
    else TapRun(d, i, d.step(i, s, commands[0]), commands[1..])
  }

  /** What a TAP that is not the last is sent: no reads but one after every scan. */
  function Middle(commands: seq<nat>): seq<nat> {
    if commands == [] then []
    else (if commands[0] == READ then [] else [commands[0]])
         + (if IsScan(commands[0]) then [READ] else []) + Middle(commands[1..])
  }

  function Scans(commands: seq<nat>): nat {
    if commands == [] then 0 else (if IsScan(commands[0]) then 1 else 0) + Scans(commands[1..])
  }

  function Reads(commands: seq<nat>): nat {
    if commands == [] then 0 else (if commands[0] == READ then 1 else 0) + Reads(commands[1..])
  }

  /** Each scan takes its TDI from the next reply. */
  function Patch(commands: seq<nat>, values: seq<nat>): seq<nat>
    requires |values| == Scans(commands)
  {
    if commands == [] then []
    else if IsScan(commands[0]) then [PatchOne(commands[0], values[0])] + Patch(commands[1..], values[1..])
    else [commands[0]] + Patch(commands[1..], values)
  }

  // ---------------------------------------------------------------------
  // The two ways of running a batch
  // ---------------------------------------------------------------------

  /** TAP by TAP, from TAP i on. */
  function Batch<S(!new)>(d: Devices<S>, i: nat, ss: seq<S>, commands: seq<nat>): (seq<S>, seq<nat>)
    decreases |ss|
  {
    if ss == [] then ([], [])
    else if |ss| == 1 then
      var (s', r) := TapRun(d, i, ss[0], commands);
      ([s'], r)
    else
      MiddleReplies(d, i, ss[0], commands);
      var (s', values) := TapRun(d, i, ss[0], Middle(commands));
      var (rest, r) := Batch(d, i + 1, ss[1..], Patch(commands, values));
      ([s'] + rest, r)
  }

  /** One command through all TAPs from TAP i on: in a scan each TAP's TDO feeds the next TAP's TDI. */
  function Ripple<S(!new)>(d: Devices<S>, i: nat, ss: seq<S>, c: nat): seq<S>
    decreases |ss|
  {
    if ss == [] then [] else
      var s' := d.step(i, ss[0], c);
      [s'] + Ripple(d, i + 1, ss[1..], if IsScan(c) then PatchOne(c, Reply(d.tdo(i, s'))) else c)
  }

  /** In lock step: command by command through all TAPs, reading the last one. */
  function LockStep<S(!new)>(d: Devices<S>, i: nat, ss: seq<S>, commands: seq<nat>): (seq<S>, seq<nat>)
    decreases |commands|
  {
    if commands == [] then (ss, [])
    else if commands[0] == READ then
      var (ss', r) := LockStep(d, i, ss, commands[1..]);
      (ss', (if ss == [] then [] else [Reply(d.tdo(i + |ss| - 1, ss[|ss| - 1]))]) + r)
    else LockStep(d, i, Ripple(d, i, ss, commands[0]), commands[1..])
  }

  // ---------------------------------------------------------------------
  // They agree
  // ---------------------------------------------------------------------

  /** A TAP in the middle answers once per scan, so the replies never run out and none is left over. */
  lemma {:induction false} MiddleReplies<S(!new)>(d: Devices<S>, i: nat, s: S, commands: seq<nat>)
    ensures |TapRun(d, i, s, Middle(commands)).1| == Scans(commands)
    decreases |commands|
  {
    if commands != [] {
      var c, rest := commands[0], commands[1..];
      var m := Middle(commands);
      if c == READ {
        assert m == Middle(rest);
        MiddleReplies(d, i, s, rest);
      } else {
        var s' := d.step(i, s, c);
        MiddleReplies(d, i, s', rest);
        MiddleStep(d, i, s, commands);
      }
    }
  }

  /** One command of a TAP in the middle. */
  lemma MiddleStep<S(!new)>(d: Devices<S>, i: nat, s: S, commands: seq<nat>)
    requires commands != [] && commands[0] != READ
    ensures var s' := d.step(i, s, commands[0]);
            var tail := TapRun(d, i, s', Middle(commands[1..]));
            TapRun(d, i, s, Middle(commands)) ==
            (tail.0, (if IsScan(commands[0]) then [Reply(d.tdo(i, s'))] else []) + tail.1)
  {
    var c, rest := commands[0], Middle(commands[1..]);
    var m, s' := Middle(commands), d.step(i, s, commands[0]);
    if IsScan(c) {
      assert m == [c, READ] + rest;
      assert m[1..] == [READ] + rest && m[1..][1..] == rest;
    } else {
      assert m == [c] + rest && m[1..] == rest;
      assert [] + TapRun(d, i, s', rest).1 == TapRun(d, i, s', rest).1;
    }
  }

  /** Patching changes no command's kind. */
  lemma PatchKeepsKind(c: nat, v: nat)
    ensures IsScan(c) ==> IsScan(PatchOne(c, v)) && PatchOne(c, v) != READ
    ensures forall u: nat :: PatchOne(PatchOne(c, v), u) == PatchOne(c, u)
  {
  }

  /** The first TAP alone, then the others on the patched commands: in lock step this is the same. */
  lemma {:induction false} LockStepPeels<S(!new)>(d: Devices<S>, i: nat, s: S, rest: seq<S>, commands: seq<nat>)
    requires rest != []
    ensures |TapRun(d, i, s, Middle(commands)).1| == Scans(commands)
    ensures var (s', values) := TapRun(d, i, s, Middle(commands));
            var (rest', r) := LockStep(d, i + 1, rest, Patch(commands, values));
            LockStep(d, i, [s] + rest, commands) == ([s'] + rest', r)
    decreases |commands|
  {
    MiddleReplies(d, i, s, commands);
    if commands != [] {
      var c, tail := commands[0], commands[1..];
      var ss := [s] + rest;
      if c == READ {
        assert Middle(commands) == Middle(tail);
        LockStepPeels(d, i, s, rest, tail);
        var values := TapRun(d, i, s, Middle(tail)).1;
        assert Patch(commands, values) == [c] + Patch(tail, values);
        assert ([c] + Patch(tail, values))[1..] == Patch(tail, values);
        assert ss[|ss| - 1] == rest[|rest| - 1];
      } else {
        var s1 := d.step(i, s, c);
        MiddleStep(d, i, s, commands);
        var c1 := if IsScan(c) then PatchOne(c, Reply(d.tdo(i, s1))) else c;
        var rest1 := Ripple(d, i + 1, rest, c1);
        assert ss[0] == s && ss[1..] == rest;
        assert Ripple(d, i, ss, c) == [s1] + rest1;
        RippleLength(d, i + 1, rest, c1);
        LockStepPeels(d, i, s1, rest1, tail);
        var vs := TapRun(d, i, s1, Middle(tail)).1;
        var values := TapRun(d, i, s, Middle(commands)).1;
        PatchKeepsKind(c, Reply(d.tdo(i, s1)));
        if IsScan(c) {
          assert values == [Reply(d.tdo(i, s1))] + vs && values[1..] == vs;
        } else {
          assert values == vs;
        }
        assert Patch(commands, values) == [c1] + Patch(tail, vs);
        assert ([c1] + Patch(tail, vs))[1..] == Patch(tail, vs);
      }
    }
  }

  lemma {:induction false} RippleLength<S(!new)>(d: Devices<S>, i: nat, ss: seq<S>, c: nat)
    ensures |Ripple(d, i, ss, c)| == |ss|
    decreases |ss|
  {
    if ss != [] {
      RippleLength(d, i + 1, ss[1..], if IsScan(c) then PatchOne(c, Reply(d.tdo(i, d.step(i, ss[0], c)))) else c);
    }
  }

  /** A single TAP in lock step is that TAP alone. */
  lemma {:induction false} LockStepOfOne<S(!new)>(d: Devices<S>, i: nat, s: S, commands: seq<nat>)
    ensures LockStep(d, i, [s], commands) == ([TapRun(d, i, s, commands).0], TapRun(d, i, s, commands).1)
    decreases |commands|
  {
    if commands != [] {
      if commands[0] == READ {
        LockStepOfOne(d, i, s, commands[1..]);
      } else {
        var s' := d.step(i, s, commands[0]);
        assert [s][1..] == [];
        assert Ripple(d, i, [s], commands[0]) == [s'];
        LockStepOfOne(d, i, s', commands[1..]);
      }
    }
  }

  lemma {:induction false} LockStepOfNone<S(!new)>(d: Devices<S>, i: nat, commands: seq<nat>)
    ensures LockStep<S>(d, i, [], commands) == ([], [])
    decreases |commands|
  {
    var none: seq<S> := [];
    if commands == [] {
      assert LockStep(d, i, none, commands) == (none, []);
    } else {
      LockStepOfNone<S>(d, i, commands[1..]);
      if commands[0] == READ {
        assert LockStep(d, i, none, commands).1 == [] + LockStep(d, i, none, commands[1..]).1;
      } else {
        assert Ripple(d, i, none, commands[0]) == none;
      }
    }
  }

  /** For any number of TAPs and any batch: TAP by TAP gives the final states and replies of lock step. */
  lemma {:induction false} BatchIsLockStep<S(!new)>(d: Devices<S>, i: nat, ss: seq<S>, commands: seq<nat>)
    ensures Batch(d, i, ss, commands) == LockStep(d, i, ss, commands)
    decreases |ss|
  {
    if ss == [] {
      LockStepOfNone(d, i, commands);
    } else if |ss| == 1 {
      assert ss == [ss[0]];
      LockStepOfOne(d, i, ss[0], commands);
    } else {
      assert ss == [ss[0]] + ss[1..];
      LockStepPeels(d, i, ss[0], ss[1..], commands);
      var values := TapRun(d, i, ss[0], Middle(commands)).1;
      BatchIsLockStep(d, i + 1, ss[1..], Patch(commands, values));
    }
  }

  // ---------------------------------------------------------------------
  // What lock step is, bit by bit
  // ---------------------------------------------------------------------

  /** The commands, as characters: a scan is one of the eight digits that set TCK, TMS and TDI. */
  lemma CommandBytes(c: char)
    ensures IsScan(c as int) <==> c in "01234567"
    ensures READ == 'R' as int && (c as int == READ ==> !IsScan(c as int))
  {
  }

  /** A command goes to every TAP; in a scan its lowest bit is TDI, which is for each TAP but the first what the TAP
      before it shows once it has taken the scan. */
  lemma {:induction false} ScanShifts<S(!new)>(d: Devices<S>, i: nat, ss: seq<S>, c: nat, k: nat) returns (c': nat)
    requires c != 'R' as int && k < |ss|
    ensures var ss' := LockStep(d, i, ss, [c]).0;
            && |ss'| == |ss| && ss'[k] == d.step(i + k, ss[k], c')
            && c' / 2 == c / 2
            && (c' % 2 == 1 <==>
                (if '0' as int <= c <= '7' as int && k > 0 then d.tdo(i + k - 1, ss'[k - 1]) else c % 2 == 1))
    decreases k
  {
    assert [c][1..] == [];
    RippleLength(d, i, ss, c);
    if k == 0 {
      c' := c;
    } else {
      var s' := d.step(i, ss[0], c);
      var c1 := if IsScan(c) then PatchOne(c, Reply(d.tdo(i, s'))) else c;
      assert [c1][1..] == [];
      ReplyPatches(c, d.tdo(i, s'));
      assert LockStep(d, i, ss, [c]).0 == [s'] + LockStep(d, i + 1, ss[1..], [c1]).0;
      c' := ScanShifts(d, i + 1, ss[1..], c1, k - 1);
    }
  }

  lemma ReplyPatches(c: nat, tdo: bool)
    ensures var c' := PatchOne(c, Reply(tdo));
            && c' / 2 == c / 2 && (c' % 2 == 1 <==> tdo)
            && (IsScan(c) ==> IsScan(c') && c' != READ)
  {
  }

  /** A read changes no TAP, and the client gets '1' or '0': what the last TAP shows. */
  lemma ReadShows<S(!new)>(d: Devices<S>, i: nat, ss: seq<S>)
    requires ss != []
    ensures LockStep(d, i, ss, ['R' as int]) ==
             (ss, [if d.tdo(i + |ss| - 1, ss[|ss| - 1]) then '1' as int else '0' as int])
  {
    var batch := [READ];
    assert batch[1..] == [] && LockStep(d, i, ss, []) == (ss, []);
    var reply := Reply(d.tdo(i + |ss| - 1, ss[|ss| - 1]));
    assert [reply] + [] == [reply];
    assert LockStep(d, i, ss, batch) == (ss, [reply]);
  }

  /** One reply byte for each read. */
  lemma {:induction false} OneReplyPerRead<S(!new)>(d: Devices<S>, i: nat, ss: seq<S>, commands: seq<nat>)
    requires ss != []
    ensures |LockStep(d, i, ss, commands).1| == Reads(commands) && |LockStep(d, i, ss, commands).0| == |ss|
    decreases |commands|
  {
    if commands != [] {
      if commands[0] == READ {
        OneReplyPerRead(d, i, ss, commands[1..]);
      } else {
        RippleLength(d, i, ss, commands[0]);
        OneReplyPerRead(d, i, Ripple(d, i, ss, commands[0]), commands[1..]);
      }
    }
  }

  /** Splitting a batch anywhere changes nothing. */
  lemma {:induction false} BatchSplits<S(!new)>(d: Devices<S>, i: nat, ss: seq<S>, a: seq<nat>, b: seq<nat>)
    ensures var (mid, r1) := Batch(d, i, ss, a);
            var (end, r2) := Batch(d, i, mid, b);
            Batch(d, i, ss, a + b) == (end, r1 + r2)
    decreases |a|
  {
    BatchIsLockStep(d, i, ss, a);
    BatchIsLockStep(d, i, ss, a + b);
    BatchIsLockStep(d, i, LockStep(d, i, ss, a).0, b);
    LockStepSplits(d, i, ss, a, b);
  }

  lemma {:induction false} LockStepSplits<S(!new)>(d: Devices<S>, i: nat, ss: seq<S>, a: seq<nat>, b: seq<nat>)
    ensures var (mid, r1) := LockStep(d, i, ss, a);
            var (end, r2) := LockStep(d, i, mid, b);
            LockStep(d, i, ss, a + b) == (end, r1 + r2)
    decreases |a|
  {
    if a == [] {
      assert a + b == b;
      var r2 := LockStep(d, i, ss, b).1;
      assert [] + r2 == r2;
    } else {
      assert (a + b)[1..] == a[1..] + b;
      if a[0] == READ {
        LockStepSplits(d, i, ss, a[1..], b);
        var (mid, r1) := LockStep(d, i, ss, a[1..]);
        var (end, r2) := LockStep(d, i, mid, b);
        var now := if ss == [] then [] else [Reply(d.tdo(i + |ss| - 1, ss[|ss| - 1]))];
        assert now + (r1 + r2) == (now + r1) + r2;
      } else {
        LockStepSplits(d, i, Ripple(d, i, ss, a[0]), a[1..], b);
      }
    }
  }

  // ---------------------------------------------------------------------
  // Chain.execute
  // ---------------------------------------------------------------------

  /** What is still to be sent to TAP i of n, from the commands not yet looked at and the replies not yet used. */
  function Pending(i: nat, n: nat, commands: seq<nat>, values: seq<nat>): seq<nat>
    requires i > 0 ==> |values| == Scans(commands)
  {
    var patched := if i > 0 then Patch(commands, values) else commands;
    if i + 1 < n then Middle(patched) else patched
  }

  lemma {:induction false} PatchScans(commands: seq<nat>, values: seq<nat>, others: seq<nat>)
    requires |values| == Scans(commands) == |others|
    ensures Scans(Patch(commands, values)) == Scans(commands)
    ensures Patch(Patch(commands, values), others) == Patch(commands, others)
    decreases |commands|
  {
    if commands != [] {
      var c, rest := commands[0], commands[1..];
      if IsScan(c) {
        PatchScans(rest, values[1..], others[1..]);
        PatchKeepsKind(c, values[0]);
        var p := Patch(commands, values);
        assert p[0] == PatchOne(c, values[0]) && p[1..] == Patch(rest, values[1..]);
      } else {
        PatchScans(rest, values, others);
        var p := Patch(commands, values);
        assert p[0] == c && p[1..] == Patch(rest, values);
      }
    }
  }

  class Chain<S(!new)> {
    const devices: Devices<S>
    /** The state of each TAP. */
    var taps: seq<S>

    constructor (devices: Devices<S>)
      ensures this.devices == devices && taps == []
    {
      this.devices, taps := devices, [];
    }

    method Append(tap: S)
      modifies this
      ensures taps == old(taps) + [tap]
    {
      taps := taps + [tap];
    }

    /** Runs TAP i on a list of commands, keeping one reply for each read. */
    method TapExecute(i: nat, commands: seq<nat>) returns (result: seq<nat>)
      requires i < |taps|
      modifies this
      ensures taps == old(taps)[i := TapRun(devices, i, old(taps)[i], commands).0]
      ensures result == TapRun(devices, i, old(taps)[i], commands).1
    {
      result := [];
      var s := taps[i];
      ghost var all := TapRun(devices, i, s, commands);
      assert commands[0..] == commands && [] + all.1 == all.1;
      for k := 0 to |commands|
        invariant taps == old(taps)
        invariant all.0 == TapRun(devices, i, s, commands[k..]).0
        invariant all.1 == result + TapRun(devices, i, s, commands[k..]).1
      {
        assert commands[k..][1..] == commands[k + 1..];
        if commands[k] == READ {
          ghost var tail := TapRun(devices, i, s, commands[k + 1..]).1;
          assert result + ([Reply(devices.tdo(i, s))] + tail) == (result + [Reply(devices.tdo(i, s))]) + tail;
          result := result + [Reply(devices.tdo(i, s))];
        } else {
          s := devices.step(i, s, commands[k]);
        }
      }
      assert result + [] == result;
      taps := taps[i := s];
    }

    /** The inner loop: the commands for TAP i. The replies of the TAP before it are used up exactly. */
    method Rewrite(i: nat, commands: seq<nat>, values: seq<nat>) returns (tmpCommands: seq<nat>)
      requires i > 0 ==> |values| == Scans(commands)
      requires i == 0 ==> values == []
      ensures tmpCommands == Pending(i, |taps|, commands, values)
    {
      hide Patch, Middle, Pending;
      tmpCommands := [];
      var left := values;
      ghost var all := Pending(i, |taps|, commands, values);
      assert commands[0..] == commands && [] + all == all;
      for k := 0 to |commands|
        invariant i > 0 ==> |left| == Scans(commands[k..])
        invariant i == 0 ==> left == []
        invariant all == tmpCommands + Pending(i, |taps|, commands[k..], left)
      {
        ghost var rest := commands[k..];
        assert rest[0] == commands[k] && rest[1..] == commands[k + 1..];
        PendingStep(i, |taps|, rest, left);
        var command := commands[k];
        if i > 0 && SCAN_LOW <= command <= SCAN_HIGH {
          var v := left[0];
          left := left[1..];
          command := PatchOne(command, v);
        }
        ghost var sent := Sent(i, |taps|, command);
        ghost var later := Pending(i, |taps|, commands[k + 1..], left);
        assert tmpCommands + (sent + later) == (tmpCommands + sent) + later;
        ghost var before := tmpCommands;
        if i + 1 < |taps| {
          if command != READ {
            tmpCommands := tmpCommands + [command];
          }
          if SCAN_LOW <= command <= SCAN_HIGH {
            tmpCommands := tmpCommands + [READ];
          }
        } else {
          tmpCommands := tmpCommands + [command];
        }
        assert tmpCommands == before + sent;
      }
      PendingOfNone(i, |taps|, commands[|commands|..], left);
      assert tmpCommands + [] == tmpCommands;
    }

    /** The whole batch: final states and replies are those of stepping all TAPs in lock step. */
    method Execute(commands: seq<nat>) returns (values: seq<nat>)
      modifies this
      ensures (taps, values) == LockStep(devices, 0, old(taps), commands)
    {
      hide Patch, Middle, Pending, TapRun, Batch, LockStep;
      values := [];
      ghost var all := taps;
      BatchIsLockStep(devices, 0, all, commands);
      ghost var answer := Batch(devices, 0, all, commands);
      assert taps[..0] + answer.0 == answer.0 && all[0..] == all;
      BatchOfNone(devices, 0, all, commands);
      ghost var now := commands;
      var i := 0;
      while i < |taps|
        invariant |taps| == |all| && i <= |all| && taps[i..] == all[i..]
        invariant i == 0 ==> values == [] && now == commands
        invariant 0 < i < |all| ==> |values| == Scans(commands) && now == Patch(commands, values)
        invariant i < |all| ==> answer.0 == taps[..i] + Batch(devices, i, all[i..], now).0
        invariant i < |all| ==> answer.1 == Batch(devices, i, all[i..], now).1
        invariant i == |all| ==> answer == (taps, values)
        decreases |all| - i
      {
        ghost var done, used := taps[..i], values;
        var tmpCommands := Rewrite(i, commands, values);
        values := TapExecute(i, tmpCommands);
        BatchStep(devices, i, |all|, all[i..], commands, used, now);
        assert all[i..][0] == all[i] && all[i..][1..] == all[i + 1..];
        assert taps[..i + 1] == done + [taps[i]];
        assert taps[i + 1..] == all[i + 1..];
        if i + 1 < |all| {
          now := Patch(commands, values);
          ghost var rest := Batch(devices, i + 1, all[i + 1..], now).0;
          assert done + ([taps[i]] + rest) == taps[..i + 1] + rest;
        } else {
          assert taps == taps[..i + 1];
        }
        i := i + 1;
      }
    }
  }

  /** What one command becomes on its way to TAP i of n. */
  function Sent(i: nat, n: nat, command: nat): seq<nat> {
    if i + 1 < n then (if command != READ then [command] else []) + (if IsScan(command) then [READ] else [])
    else [command]
  }

  lemma PendingOfNone(i: nat, n: nat, commands: seq<nat>, values: seq<nat>)
    requires commands == [] && values == []
    ensures Pending(i, n, commands, values) == []
  {
  }

  lemma BatchOfNone<S(!new)>(d: Devices<S>, i: nat, ss: seq<S>, commands: seq<nat>)
    ensures ss == [] ==> Batch(d, i, ss, commands) == ([], [])
  {
  }

  /** One TAP taken off what is still to be run; now is what the TAPs from i on are to do. */
  lemma BatchStep<S(!new)>(d: Devices<S>, i: nat, n: nat, ss: seq<S>, commands: seq<nat>, values: seq<nat>,
                    now: seq<nat>)
    requires i < n && |ss| == n - i
    requires if i == 0 then now == commands else |values| == Scans(commands) && now == Patch(commands, values)
    ensures var (s', replies) := TapRun(d, i, ss[0], Pending(i, n, commands, values));
            if |ss| == 1 then Batch(d, i, ss, now) == ([s'], replies)
            else |replies| == Scans(commands) &&
                 var (rest, r) := Batch(d, i + 1, ss[1..], Patch(commands, replies));
                 Batch(d, i, ss, now) == ([s'] + rest, r)
  {
    assert Pending(i, n, commands, values) == if |ss| == 1 then now else Middle(now);
    if |ss| > 1 {
      MiddleReplies(d, i, ss[0], now);
      if i > 0 {
        PatchScans(commands, values, values);
        PatchScans(commands, values, TapRun(d, i, ss[0], Middle(now)).1);
      }
    }
  }

  /** One command taken off what is still to be sent. */
  lemma PendingStep(i: nat, n: nat, commands: seq<nat>, values: seq<nat>)
    requires commands != [] && (i > 0 ==> |values| == Scans(commands))
    ensures var c := commands[0];
            var scan := i > 0 && IsScan(c);
            var command := if scan then PatchOne(c, values[0]) else c;
            var rest := Pending(i, n, commands[1..], if scan then values[1..] else values);
            Pending(i, n, commands, values) == Sent(i, n, command) + rest
  {
    var c := commands[0];
    if i > 0 {
      var p := Patch(commands, values);
      if IsScan(c) {
        PatchKeepsKind(c, values[0]);
        assert p[0] == PatchOne(c, values[0]) && p[1..] == Patch(commands[1..], values[1..]);
      } else {
        assert p[0] == c && p[1..] == Patch(commands[1..], values);
      }
    } else {
      assert commands == [c] + commands[1..];
    }
  }
}
