/** The channel object: the fields the MODE interpreter and the partition-heal merge update. */
module Channels {
  import opened Text
  import opened Modes
  import Decimal
  import M = Merge

  /** The interpreter's local variables. */
  datatype Progress = Progress(
    paramIdx: nat, add: bool, changes: seq<string>, changeParams: seq<string>, replies: seq<Reply>)

  class Channel {
    var modes: set<char>
    var key: string
    var limit: int
    var bans: map<string, Ban>
    var members: map<string, string>
    var topic: string
    var topicWho: string
    var topicTime: int

    function State(): ChanState
      reads this
    {
      ChanState(modes, key, limit, bans, members)
    }

    ghost predicate Valid()
      reads this
    {
      WellFormed(State())
    }

    method IsModeQuery(modeStr: string) returns (isQuery: bool)
      ensures isQuery == IsQuery(modeStr)
    {
      isQuery := true;
      for i := 0 to |modeStr|
        invariant isQuery && IsQuery(modeStr[..i])
      {
        if modeStr[i] != '+' && modeStr[i] != '-' {
          isQuery := false;
          break;
        }
        assert modeStr[..i + 1] == modeStr[..i] + [modeStr[i]];
      }
      assert modeStr[..|modeStr|] == modeStr;
    }

    method IsModeListQuery(modeStr: string, params: seq<string>) returns (isListQuery: bool)
      ensures isListQuery == IsListQuery(modeStr, params)
    {
      isListQuery := false;
      if |params| == 0 {
        var listOnly := true;
        for i := 0 to |modeStr|
          invariant listOnly
          invariant forall j :: 0 <= j < i ==> modeStr[j] in {'b', 'e', 'I', '+', '-'}
        {
          if modeStr[i] !in {'b', 'e', 'I', '+', '-'} {
            listOnly := false;
            break;
          }
        }
        if listOnly && modeStr != "" {
          isListQuery := true;
        }
      }
    }

    /** The client is a member with the status letter. */
    static predicate Holds(members: map<string, string>, client: string, letter: char) {
      client in members && exists j :: 0 <= j < |members[client]| && members[client][j] == letter
    }

    method HandleMode(e: Env, client: string, modeStr: string, params: seq<string>) returns (out: Outcome)
      requires Valid()
      modifies `modes, `key, `limit, `bans, `members
      ensures Valid()
      ensures (State(), out) == Handle(e, params, old(State()), client, modeStr)
      ensures State() != old(State()) || out.Done? ==> Holds(old(members), client, 'o')
      ensures out.NotOperator? ==> !Holds(old(members), client, 'o')
      ensures out.ModeIs? <==> forall j :: 0 <= j < |modeStr| ==> modeStr[j] == '+' || modeStr[j] == '-'
      ensures out.Lists? <==> !out.ModeIs? && params == []
                              && forall j :: 0 <= j < |modeStr| ==> modeStr[j] in {'b', 'e', 'I', '+', '-'}
    {
      WhoMayChange(e, params, State(), client, modeStr);
      var isQuery := IsModeQuery(modeStr);
      var isListQuery := IsModeListQuery(modeStr, params);
      if isQuery {
        var args := [];
        if key != "" && client in members { args := args + [key]; }
        if limit > 0 { args := args + [Decimal.Print(limit)]; }
        assert args == KeyArgs(State(), client) + LimitArgs(State());
        return ModeIs(modes, key != "", args);
      }
      if isListQuery { return Lists(modeStr, bans); }
      if client !in members || 'o' !in members[client] { return NotOperator; }

      ghost var st := State();
      InterpretTracks(e, params, st, modeStr);
      var r := Progress(0, true, [], [], []);
      for i := 0 to |modeStr|
        invariant RunOf(r) == Interpret(e, params, st, modeStr[..i])
      {
        assert modeStr[..i + 1][..i] == modeStr[..i];
        r := HandleLetter(e, params, r, modeStr[i]);
      }
      assert modeStr[..|modeStr|] == modeStr;
      if r.changes == [] { return Done("", r.changeParams, r.replies, None); }
      var delta := GroupSigns(r.changes);
      var line := ":" + e.who + " MODE " + Join([e.channel, delta] + r.changeParams, ' ');
      var relayed := delta;
      if r.changeParams != [] { relayed := relayed + " " + Join(r.changeParams, ' '); }
      return Done(delta, r.changeParams, r.replies, Some(Sent(line, relayed)));
    }

    function RunOf(r: Progress): Run
      reads this
    {
      Run(State(), r.paramIdx, r.add, r.changes, r.changeParams, r.replies)
    }

    /** The loop body for `o` and `v`, once the parameter is consumed. */
    method HandleStatus(e: Env, param: string, r: Progress, m: char) returns (r': Progress)
      modifies `members
      ensures RunOf(r') == StepStatus(e, old(RunOf(r)), m, param)
    {
      r' := r;
      var target := e.resolve(param);
      if target.Some? {
        var nick := target.value;
        if nick !in members {
          r' := r.(replies := r.replies + [NotOnChannel(nick)]);
        } else {
          var held := members[nick];
          if r.add {
            if m !in held {
              members := members[nick := held + [m]];
              r' := r.(changes := r.changes + [['+', m]], changeParams := r.changeParams + [nick]);
            }
          } else if m in held {
            members := members[nick := RemoveFirst(held, m)];
            r' := r.(changes := r.changes + [['-', m]], changeParams := r.changeParams + [nick]);
          }
        }
      }
    }

    /** The loop body: one character of the mode string. */
    method HandleLetter(e: Env, params: seq<string>, r: Progress, m: char) returns (r': Progress)
      modifies `modes, `key, `limit, `bans, `members
      ensures RunOf(r') == Step(e, params, old(RunOf(r)), m)
    {
      var Progress(paramIdx, add, changes, changeParams, replies) := r;
      if (m == 'o' || m == 'v') && paramIdx < |params| {
        r' := HandleStatus(e, params[paramIdx], r.(paramIdx := paramIdx + 1), m);
        return;
      }
      if m == '+' {
        add := true;
      } else if m == '-' {
        add := false;
      } else if m == 'o' || m == 'v' {
      } else if m == 'b' {
        if paramIdx >= |params| {
          replies := replies + [BanList(bans)];
        } else {
          var mask := params[paramIdx];
          paramIdx := paramIdx + 1;
          if add {
            bans := bans[e.fold(mask) := Ban(mask, e.who, e.now)];
            changes := changes + ["+b"];
          } else {
            bans := bans - {e.fold(mask)};
            changes := changes + ["-b"];
          }
          changeParams := changeParams + [mask];
        }
      } else if m == 'k' {
        if add {
          if paramIdx < |params| {
            key := params[paramIdx];
            paramIdx := paramIdx + 1;
            changes := changes + ["+k"];
            changeParams := changeParams + [key];
          }
        } else {
          key := "";
          changes := changes + ["-k"];
          changeParams := changeParams + ["*"];
        }
      } else if m == 'l' {
        if add {
          if paramIdx < |params| {
            var scanned := e.scan(params[paramIdx]);
            paramIdx := paramIdx + 1;
            if scanned > 0 {
              limit := scanned;
              changes := changes + ["+l"];
              changeParams := changeParams + [Decimal.Print(scanned)];
            }
          }
        } else {
          limit := 0;
          changes := changes + ["-l"];
        }
      } else if m in SIMPLE_FLAGS {
        if add {
          if m !in modes {
            modes := modes + {m};
            changes := changes + [['+', m]];
          }
        } else if m in modes {
          modes := modes - {m};
          changes := changes + [['-', m]];
        }
      } else {
        replies := replies + [UnknownMode(m)];
      }
      r' := Progress(paramIdx, add, changes, changeParams, replies);
    }

    method GroupSigns(changes: seq<string>) returns (modeChange: string)
      requires forall i :: 0 <= i < |changes| ==> IsChange(changes[i])
      ensures modeChange == Compress(changes, "")
    {
      modeChange := "";
      var currentDir := "";
      for i := 0 to |changes|
        invariant modeChange + Compress(changes[i..], currentDir) == Compress(changes, "")
      {
        assert IsChange(changes[i]);
        var dir, mode := changes[i][..1], changes[i][1..];
        assert changes[i..][0] == changes[i] && changes[i..][1..] == changes[i + 1..];
        ghost var was, rest := modeChange, Compress(changes[i + 1..], dir);
        if dir != currentDir {
          modeChange := modeChange + dir;
          currentDir := dir;
        }
        modeChange := modeChange + mode;
        assert was + (dir + mode + rest) == was + dir + mode + rest;
        assert was + ("" + mode + rest) == was + mode + rest;
      }
    }

    function Merged(): M.Merged
      reads this
    {
      M.Merged(topic, topicWho, topicTime, modes, bans)
    }

    method HandleRemoteMerge(k: M.Codec, ev: M.MergeEvent)
      modifies `topic, `topicWho, `topicTime, `modes, `bans
      ensures Merged() == M.MergeOne(k, old(Merged()), ev)
    {
      if ev.topicTs != "" {
        var remoteTime := k.parse(ev.topicTs);
        if remoteTime.Some? && remoteTime.value > topicTime {
          topic := ev.topic;
          topicWho := ev.topicBy;
          topicTime := remoteTime.value;
        }
      }
      ghost var modes0, bans0 := modes, bans;
      for i := 0 to |ev.modes|
        modifies `modes
        invariant modes == modes0 + Elements(ev.modes[..i])
      {
        assert ev.modes[..i + 1] == ev.modes[..i] + [ev.modes[i]];
        modes := modes + {ev.modes[i]};
      }
      assert ev.modes[..|ev.modes|] == ev.modes;
      if ev.bans.Some? {
        var list := ev.bans.value;
        assert list[..0] == [];
        for i := 0 to |list|
          modifies `bans
          invariant bans == M.AddBans(k, bans0, list[..i])
        {
          assert list[..i + 1][..i] == list[..i];
          if list[i].Some? {
            var b := list[i].value;
            var ts := k.parse(b.ts);
            bans := bans[k.fold(b.mask) := Ban(b.mask, b.setBy, if ts.Some? then ts.value else k.zeroTime)];
          }
        }
        assert list[..|list|] == list;
      }
    }
  }
}
