/**
  What the environment promises over single calls and whole runs of
  `_do_setenv`: it behaves as a map kept in insertion order, decides overflow
  exactly, and keeps write-once variables.
 */
module EnvTheorems {
  import opened Common
  import opened EnvSpec

  // ---- one call ----

  /** Well-formedness, unique names and the size bound are kept by every call. */
  lemma SetEnvKeepsWf(cfg: Config, size: nat, es: seq<Entry>, c: Call)
    requires Wf(es) && WfCall(c) && |Image(es)| <= size
    ensures Wf(SetEnv(cfg, size, es, c).entries)
    ensures |Image(SetEnv(cfg, size, es, c).entries)| <= size
  {
    hide Flat, Image, Text, KeyOf, Join, Remove, Lookup;
    var rest := Remove(es, KeyOf(c.name));
    RemoveWf(es, KeyOf(c.name));
    RemoveShrinks(es, KeyOf(c.name));
    if c.args != [] {
      NewEntryText(c.name, c.args);
      ImageSnoc(rest, NewEntry(c.name, c.args));
      RemoveMembers(es, KeyOf(c.name));
      assert forall i :: 0 <= i < |rest| ==> rest[i] in rest;
      SnocWf(rest, NewEntry(c.name, c.args));
    }
  }

  lemma {:induction false} RemoveShrinks(es: seq<Entry>, name: string)
    requires Wf(es)
    ensures |Flat(Remove(es, name))| <= |Flat(es)|
    ensures |Image(Remove(es, name))| <= |Image(es)|
  {
    if k: nat :| k < |es| && es[k].name == name {
      RemoveAt(es, k);
      FlatSplit(es, k);
      FlatConcat(es[..k], es[k + 1..]);
      FlatNoDoubleNul(es);
    } else {
      RemoveAbsent(es, name);
    }
  }

  /** A call touches one key only: every other variable keeps its value, whatever the outcome. */
  lemma OthersKept(cfg: Config, size: nat, es: seq<Entry>, c: Call, other: string)
    requires other != KeyOf(c.name)
    ensures Lookup(SetEnv(cfg, size, es, c).entries, other) == Lookup(es, other)
  {
    var rest := Remove(es, KeyOf(c.name));
    LookupRemove(es, KeyOf(c.name), other);
    if c.args != [] {
      LookupSnoc(rest, NewEntry(c.name, c.args), other);
    }
  }

  /** After a call the key is unchanged (refused), set to the new value, or gone (deleted or overflowed). */
  lemma KeyAfter(cfg: Config, size: nat, es: seq<Entry>, c: Call)
    requires Wf(es) && WfCall(c)
    ensures var r, key := SetEnv(cfg, size, es, c), KeyOf(c.name);
            Lookup(r.entries, key) ==
              if Refused(cfg, es, c) then Lookup(es, key)
              else if c.args != [] && r.rc == 0 then Some(NewEntry(c.name, c.args).value)
              else None
  {
    var key := KeyOf(c.name);
    LookupRemove(es, key, key);
    if c.args != [] {
      LookupSnoc(Remove(es, key), NewEntry(c.name, c.args), key);
    }
  }

  /** After an '='-free name was set, `getenv` returns the joined arguments. */
  lemma SetThenGet(cfg: Config, size: nat, es: seq<Entry>, c: Call)
    requires Wf(es) && WfCall(c) && '=' !in c.name && c.args != []
    requires SetEnv(cfg, size, es, c).rc == 0
    ensures Lookup(SetEnv(cfg, size, es, c).entries, c.name) == Some(Join(c.args))
    ensures SetEnv(cfg, size, es, c).entries == Remove(es, c.name) + [Entry(c.name, Join(c.args))]
  {
    KeyOfPrefix(c.name);
    NewEntryText(c.name, c.args);
    KeyAfter(cfg, size, es, c);
  }

  /** A call fails exactly when it is refused, or the new image with both terminators is larger than the
      store; a failing append leaves the list without the variable. */
  lemma OverflowExact(cfg: Config, size: nat, es: seq<Entry>, c: Call)
    requires Wf(es) && WfCall(c)
    ensures var r, rest := SetEnv(cfg, size, es, c), Remove(es, KeyOf(c.name));
            && (r.rc != 0 <==>
                  || Refused(cfg, es, c)
                  || (c.args != [] && |Image(rest + [NewEntry(c.name, c.args)])| > size))
            && (r.rc != 0 && !Refused(cfg, es, c) ==> r.entries == rest)
  {
    if c.args != [] {
      NewEntryText(c.name, c.args);
      ImageSnoc(Remove(es, KeyOf(c.name)), NewEntry(c.name, c.args));
    }
  }

  // ---- runs ----

  function Run(cfg: Config, size: nat, es: seq<Entry>, calls: seq<Call>): seq<Entry> {
    if calls == [] then es
    else SetEnv(cfg, size, Run(cfg, size, es, calls[..|calls| - 1]), calls[|calls| - 1]).entries
  }

  /** Every reachable environment is well-formed and fits the store. */
  lemma {:induction false} RunKeepsWf(cfg: Config, size: nat, es: seq<Entry>, calls: seq<Call>)
    requires Wf(es) && |Image(es)| <= size
    requires forall i :: 0 <= i < |calls| ==> WfCall(calls[i])
    ensures Wf(Run(cfg, size, es, calls)) && |Image(Run(cfg, size, es, calls))| <= size
  {
    hide SetEnv, Image, Wf, WfCall;
    if calls != [] {
      var n := |calls| - 1;
      RunKeepsWf(cfg, size, es, calls[..n]);
      SetEnvKeepsWf(cfg, size, Run(cfg, size, es, calls[..n]), calls[n]);
    }
  }

  /** Last writer wins: calls on other keys never disturb a variable. */
  lemma {:induction false} UntouchedOverRun(cfg: Config, size: nat, es: seq<Entry>, calls: seq<Call>, name: string)
    requires forall i :: 0 <= i < |calls| ==> KeyOf(calls[i].name) != name
    ensures Lookup(Run(cfg, size, es, calls), name) == Lookup(es, name)
  {
    if calls != [] {
      var n := |calls| - 1;
      UntouchedOverRun(cfg, size, es, calls[..n], name);
      OthersKept(cfg, size, Run(cfg, size, es, calls[..n]), calls[n], name);
    }
  }

  // ---- write-once variables ----

  /** A name such as `serial#=x` is matched as `serial#` but does not compare equal to it. */
  predicate Bypasses(argument: string, name: string) {
    argument != name && KeyOf(argument) == name
  }

  lemma WriteOnceStep(cfg: Config, size: nat, es: seq<Entry>, c: Call, name: string, v: string)
    requires Lookup(es, name) == Some(v) && ReadOnly(cfg, name, v) && !Bypasses(c.name, name)
    ensures Lookup(SetEnv(cfg, size, es, c).entries, name) == Some(v)
  {
    if KeyOf(c.name) != name {
      OthersKept(cfg, size, es, c, name);
    }
  }

  /** Once set, `serial#` and `ethaddr` keep their value over every run without such names. */
  lemma {:induction false} WriteOnce(cfg: Config, size: nat, es: seq<Entry>, calls: seq<Call>, name: string, v: string)
    requires Lookup(es, name) == Some(v) && ReadOnly(cfg, name, v)
    requires forall i :: 0 <= i < |calls| ==> !Bypasses(calls[i].name, name)
    ensures Lookup(Run(cfg, size, es, calls), name) == Some(v)
  {
    if calls != [] {
      var n := |calls| - 1;
      WriteOnce(cfg, size, es, calls[..n], name, v);
      WriteOnceStep(cfg, size, Run(cfg, size, es, calls[..n]), calls[n], name, v);
    }
  }

  lemma BypassDeletes(cfg: Config, size: nat, es: seq<Entry>, argument: string, name: string)
    requires Bypasses(argument, name)
    ensures Lookup(SetEnv(cfg, size, es, Call(argument, [], true)).entries, name) == None
  {
    KeyOfPrefix(argument);
    assert '=' in argument;
    LookupRemove(es, name, name);
    assert '=' !in "serial#" && '=' !in "ethaddr" && '=' !in "stdin" && '=' !in "stdout" && '=' !in "stderr";
  }

  /** The protection holds against every call with a given name iff the name carries no '=' after the protected one. */
  lemma WriteOnceExact(cfg: Config, size: nat, es: seq<Entry>, argument: string, name: string, v: string)
    requires Lookup(es, name) == Some(v) && ReadOnly(cfg, name, v)
    ensures (forall args: seq<string>, ok: bool ::
               Lookup(SetEnv(cfg, size, es, Call(argument, args, ok)).entries, name) == Some(v))
            <==> !Bypasses(argument, name)
  {
    if Bypasses(argument, name) {
      BypassDeletes(cfg, size, es, argument, name);
    } else {
      forall args: seq<string>, ok: bool
        ensures Lookup(SetEnv(cfg, size, es, Call(argument, args, ok)).entries, name) == Some(v)
      {
        WriteOnceStep(cfg, size, es, Call(argument, args, ok), name, v);
      }
    }
  }

  /** Concretely: `setenv serial#=x` deletes a serial number that is documented as set only once. */
  lemma WriteOnceBypassed()
    ensures var es := [Entry("serial#", "123")];
            Lookup(SetEnv(Config(false, None), 64, es, Call("serial#=x", [], true)).entries, "serial#") == None
  {
    KeyOfIs("serial#=x", 7);
    assert "serial#=x"[..7] == "serial#";
    BypassDeletes(Config(false, None), 64, [Entry("serial#", "123")], "serial#=x", "serial#");
  }

  // ---- what is refused, in the names and values themselves ----

  /** The arguments are joined by single spaces. */
  lemma JoinBySpaces(args: seq<string>, last: string)
    ensures Join([last]) == last
    ensures args != [] ==> Join(args + [last]) == Join(args) + " " + last
  {
    assert args != [] ==> (args + [last])[..|args|] == args;
  }

  /** A call on a variable that is set leaves everything as it was and returns 1 exactly for a serial number, for an
      Ethernet address that is not the one configured as replaceable, for a console that is deleted or not accepted,
      and for a baud rate that is not accepted; the first two only without the overwrite option. */
  lemma RefusedExactly(cfg: Config, size: nat, es: seq<Entry>, c: Call, current: string)
    requires Wf(es) && Lookup(es, KeyOf(c.name)) == Some(current)
    ensures SetEnv(cfg, size, es, c) == Outcome(es, 1) <==>
            || (!cfg.overwrite && c.name == "serial#")
            || (!cfg.overwrite && c.name == "ethaddr" && cfg.ethaddrOnce != Some(current))
            || ((c.name == "stdin" || c.name == "stdout" || c.name == "stderr") && (c.args == [] || !c.deviceOk))
            || (c.name == "baudrate" && !c.deviceOk)
  {
    LookupRemove(es, KeyOf(c.name), KeyOf(c.name));
  }

  /** A call on a variable that is not set, whatever its name, fails only when the entry does not fit. */
  lemma FirstSetNotRefused(cfg: Config, size: nat, es: seq<Entry>, c: Call)
    requires Wf(es) && WfCall(c) && Lookup(es, KeyOf(c.name)) == None
    ensures SetEnv(cfg, size, es, c).rc == 0 <==>
            c.args == [] || |Image(Remove(es, KeyOf(c.name)) + [NewEntry(c.name, c.args)])| <= size
  {
    OverflowExact(cfg, size, es, c);
  }

  lemma PlainNames(calls: seq<Call>, name: string)
    requires forall i :: 0 <= i < |calls| ==> '=' !in calls[i].name
    ensures forall i :: 0 <= i < |calls| ==> !Bypasses(calls[i].name, name)
  {
    forall i | 0 <= i < |calls|
      ensures !Bypasses(calls[i].name, name)
    {
      KeyOfPrefix(calls[i].name);
    }
  }

  /** Without the overwrite option, a serial number keeps its value over every run of '='-free names. */
  lemma SerialKept(cfg: Config, size: nat, es: seq<Entry>, calls: seq<Call>, v: string)
    requires !cfg.overwrite && Lookup(es, "serial#") == Some(v)
    requires forall i :: 0 <= i < |calls| ==> '=' !in calls[i].name
    ensures Lookup(Run(cfg, size, es, calls), "serial#") == Some(v)
  {
    PlainNames(calls, "serial#");
    WriteOnce(cfg, size, es, calls, "serial#", v);
  }

  /** So does an Ethernet address other than the one configured as replaceable. */
  lemma EthaddrKept(cfg: Config, size: nat, es: seq<Entry>, calls: seq<Call>, v: string)
    requires !cfg.overwrite && Lookup(es, "ethaddr") == Some(v) && cfg.ethaddrOnce != Some(v)
    requires forall i :: 0 <= i < |calls| ==> '=' !in calls[i].name
    ensures Lookup(Run(cfg, size, es, calls), "ethaddr") == Some(v)
  {
    PlainNames(calls, "ethaddr");
    WriteOnce(cfg, size, es, calls, "ethaddr", v);
  }

  /** The configured Ethernet address, and with the overwrite option both variables, can be replaced by any arguments
      that fit, and deleted. */
  lemma ReplaceableOnce(cfg: Config, size: nat, es: seq<Entry>, c: Call, v: string)
    requires Wf(es) && WfCall(c) && Lookup(es, c.name) == Some(v)
    requires (c.name == "ethaddr" && (cfg.overwrite || cfg.ethaddrOnce == Some(v))) || (c.name == "serial#" && cfg.overwrite)
    ensures var r := SetEnv(cfg, size, es, c);
            if c.args == [] then r.rc == 0 && Lookup(r.entries, c.name) == None
            else if |Image(Remove(es, c.name) + [Entry(c.name, Join(c.args))])| <= size
            then r.rc == 0 && Lookup(r.entries, c.name) == Some(Join(c.args))
            else r.rc == 1 && Lookup(r.entries, c.name) == None
  {
    assert '=' !in c.name;
    KeyOfPrefix(c.name);
    assert !Refused(cfg, es, c);
    assert SetEnv(cfg, size, es, c).rc == 0 || SetEnv(cfg, size, es, c).rc == 1;
    hide *;
    KeyAfter(cfg, size, es, c);
    OverflowExact(cfg, size, es, c);
    if c.args != [] {
      CallIsWf(c);
      NewEntryText(c.name, c.args);
    }
  }

  lemma CallIsWf(c: Call)
    requires WfCall(c)
    ensures NUL !in c.name && forall i :: 0 <= i < |c.args| ==> NUL !in c.args[i]
  {
  }
}
