/**
  The in-RAM environment of `cmd_nvedit.c`: a byte array edited in place.
  Each step of `_do_setenv` is a method over that array, proved against the
  insertion-ordered list of module `EnvSpec`.
 */
module EnvStore {
  import opened Common
  import opened EnvSpec

  /** The character a C string shows at index `k`: its terminator past the end. */
  function CharAt(s: string, k: nat): char {
    if k < |s| then s[k] else NUL
  }

  // ---- reading ----

  /** `envmatch`: compare an argument name with the entry stored at `i2`. */
  method EnvMatch(data: array<char>, s1: string, i2: nat, ghost e: Entry) returns (val: int)
    requires WfEntry(e) && NUL !in s1 && StringAt(data[..], i2, Text(e))
    ensures val >= 0 <==> KeyOf(s1) == e.name
    ensures val >= 0 ==> val == i2 + |e.name| + 1
  {
    assert forall k :: i2 <= k < i2 + |Text(e)| ==> data[k] == data[..][i2..i2 + |Text(e)|][k - i2];
    var j, i := 0, i2;
    while CharAt(s1, j) == data[i]
      invariant j <= |e.name| && j <= |s1| && i == i2 + j
      invariant forall k :: 0 <= k < j ==> s1[k] == e.name[k]
      decreases |s1| - j
    {
      i := i + 1;
      if s1[j] == '=' {
        assert s1[..j] == e.name;
        KeyOfIs(s1, j);
        return i;
      }
      j := j + 1;
    }
    assert s1[..j] == e.name[..j];
    if CharAt(s1, j) == NUL && data[i] == '=' {
      KeyOfIs(s1, j);
      return i + 1;
    }
    NoMatch(s1, e.name, j);
    return -1;
  }

  /** Find the NUL that ends the entry at `env`; gives up at `limit`, which an entry never reaches. */
  method EntryEnd(data: array<char>, limit: nat, env: nat, ghost text: string) returns (ok: bool, nxt: nat)
    requires data.Length <= limit && StringAt(data[..], env, text)
    ensures ok && nxt == env + |text|
  {
    nxt := env;
    assert forall k :: env <= k < env + |text| ==> data[k] == data[..][env..env + |text|][k - env];
    while data[nxt] != NUL
      invariant env <= nxt <= env + |text| < data.Length
      decreases data.Length - nxt
    {
      if nxt >= limit {
        return false, nxt;
      }
      nxt := nxt + 1;
    }
    return true, nxt;
  }

  /** `strcmp` of a stored value with a constant. */
  method SameString(data: array<char>, at: nat, s: string, ghost v: string) returns (same: bool)
    requires NUL !in s && StringAt(data[..], at, v)
    ensures same <==> v == s
  {
    var i := 0;
    assert forall k :: at <= k < at + |v| ==> data[k] == data[..][at..at + |v|][k - at];
    while i < |s| && data[at + i] == s[i]
      invariant i <= |s| && i <= |v|
      invariant forall k :: 0 <= k < i ==> s[k] == v[k]
    {
      i := i + 1;
    }
    same := i == |s| && data[at + i] == NUL;
  }

  // ---- deleting ----

  predicate Double(img: string, i: nat)
    requires i + 1 < |img|
  {
    img[i] == NUL && img[i + 1] == NUL
  }

  /** The position before `end` is the first one where two NULs follow each other. */
  ghost predicate DoubleNulAt(img: string, end: nat) {
    && 0 < end < |img|
    && forall i: nat :: i < end ==> (Double(img, i) <==> i == end - 1)
  }

  lemma OnlyEndIsDouble(d: string, es: seq<Entry>)
    requires Stores(d, es) && es != []
    ensures DoubleNulAt(d, |Flat(es)|) && |Flat(es)| >= 2
  {
    FlatNoDoubleNul(es);
    EndOfImage(es);
    forall i: nat | i < |Flat(es)|
      ensures Double(d, i) <==> i == |Flat(es)| - 1
    {
      DoubleNulIsEnd(es, i);
      assert d[i] == Image(es)[i] && d[i + 1] == Image(es)[i + 1];
    }
  }

  /** The copy loop of a deletion: move everything from `src` to the last terminator down to `dst`, then end the image. */
  method CutOut(data: array<char>, dst: nat, src: nat, ghost end: nat)
    requires DoubleNulAt(data[..], end) && dst < src < end
    modifies data
    ensures old(data[..dst]) + old(data[src..end]) + [NUL] <= data[..]
  {
    ghost var img := data[..];
    var env, nxt := dst, src;
    while true
      invariant dst <= env && nxt == src + (env - dst) < end
      invariant forall i :: 0 <= i < dst ==> data[i] == img[i]
      invariant forall i :: dst <= i < env ==> data[i] == img[i + (src - dst)]
      invariant forall i :: nxt <= i <= end ==> data[i] == img[i]
      decreases end - nxt
    {
      data[env] := data[nxt];
      nxt := nxt + 1;
      assert Double(img, nxt - 1) <==> data[env] == NUL && data[nxt] == NUL;
      if data[env] == NUL && data[nxt] == NUL {
        break;
      }
      env := env + 1;
    }
    env := env + 1;
    data[env] := NUL;
    assert forall i :: dst <= i < env ==> data[i] == img[src..end][i - dst];
  }

  /** Nothing follows the deleted entry: end the image where it started. */
  method CutLast(data: array<char>, env0: nat)
    requires env0 < data.Length && data.Length >= 2
    requires env0 > 0 ==> data[env0 - 1] == NUL
    modifies data
    ensures if env0 > 0 then old(data[..env0]) + [NUL] <= data[..] else [NUL, NUL] <= data[..]
  {
    var env := env0;
    if env > 0 {
      env := env - 1;
    } else {
      data[env] := NUL;
    }
    env := env + 1;
    data[env] := NUL;
    assert forall i :: 0 <= i < env0 ==> data[i] == old(data[..env0])[i];
  }

  // ---- appending ----

  /** Find the end of the image; the next entry goes there. */
  method FindEnd(data: array<char>, ghost end: nat) returns (env: nat)
    requires (end == 0 && data.Length >= 2 && Double(data[..], 0)) || (end >= 2 && DoubleNulAt(data[..], end))
    ensures env == end
  {
    env := 0;
    while data[env] != NUL || data[env + 1] != NUL
      invariant env == 0 || env < end
      invariant env + 1 < data.Length
      decreases end - env
    {
      assert !Double(data[..], env);
      env := env + 1;
    }
    assert Double(data[..], env);
    if env > 0 {
      env := env + 1;
    }
  }

  /** Length check of the append: the new text and both terminators. */
  method EntryLength(name: string, args: seq<string>) returns (len: nat)
    requires args != []
    ensures len == |NewText(name, args)| + 2
  {
    len := |name| + 2;
    var i := 0;
    while i < |args|
      invariant 0 <= i <= |args|
      invariant len == |Written(name, args[..i])| + 2
    {
      WrittenSnoc(name, args, i);
      len := len + |args[i]| + 1;
      i := i + 1;
    }
    assert args[..|args|] == args;
  }

  /** Copy a C string with its terminator to `dst`; `env` ends on the terminator. */
  method CopyString(data: array<char>, dst: nat, s: string) returns (env: nat)
    requires NUL !in s && dst + |s| < data.Length
    modifies data
    ensures env == dst + |s|
    ensures data[..dst] == old(data[..dst])
    ensures data[dst..env + 1] == s + [NUL]
  {
    env := dst;
    var k := 0;
    data[env] := CharAt(s, k);
    while data[env] != NUL
      invariant k <= |s| && env == dst + k && data[env] == CharAt(s, k)
      invariant forall i :: 0 <= i < dst ==> data[i] == old(data[i])
      invariant forall i :: dst <= i < env ==> data[i] == s[i - dst]
      decreases |s| - k
    {
      env := env + 1;
      k := k + 1;
      data[env] := CharAt(s, k);
    }
  }

  /** Overwrite the terminator at `env0` with a separator and copy one argument behind it. */
  method AppendArg(data: array<char>, start: nat, env0: nat, sep: char, arg: string, ghost before: string)
    returns (env: nat)
    requires NUL !in arg && env0 == start + |before| && env0 + 1 + |arg| < data.Length
    requires data[start..env0 + 1] == before + [NUL]
    modifies data
    ensures env == env0 + 1 + |arg|
    ensures data[..start] == old(data[..start])
    ensures data[start..env + 1] == before + [sep] + arg + [NUL]
  {
    assert data[start..env0] == data[start..env0 + 1][..|before|] == before;
    data[env0] := sep;
    assert data[start..env0] == before;
    label L:
    env := CopyString(data, env0 + 1, arg);
    assert data[start..env0 + 1] == data[..env0 + 1][start..] == old@L(data[..env0 + 1])[start..] == before + [sep];
    assert data[..start] == data[..env0 + 1][..start];
    assert data[start..env + 1] == data[start..env0 + 1] + data[env0 + 1..env + 1];
  }

  /** Write `name=arg arg ...` at `start` and close the image with a double NUL. */
  method WriteEntry(data: array<char>, start: nat, name: string, args: seq<string>)
    requires args != [] && NUL !in name && forall i :: 0 <= i < |args| ==> NUL !in args[i]
    requires start + |NewText(name, args)| + 2 <= data.Length
    modifies data
    ensures old(data[..start]) + NewText(name, args) + [NUL, NUL] <= data[..]
  {
    var env := CopyString(data, start, name);
    var i := 0;
    while i < |args|
      invariant 0 <= i <= |args|
      invariant env == start + |Written(name, args[..i])| < data.Length
      invariant data[..start] == old(data[..start])
      invariant data[start..env + 1] == Written(name, args[..i]) + [NUL]
    {
      WrittenSnoc(name, args, i);
      JoinPrefixLength(args, i + 1);
      env := AppendArg(data, start, env, if i == 0 then '=' else ' ', args[i], Written(name, args[..i]));
      i := i + 1;
    }
    assert args[..|args|] == args;
    CloseImage(data, start, env + 1, NewText(name, args));
  }

  /** Store the second NUL of the end mark. */
  method CloseImage(data: array<char>, start: nat, env: nat, ghost text: string)
    requires env == start + |text| + 1 < data.Length && data[start..env] == text + [NUL]
    modifies data
    ensures old(data[..start]) + text + [NUL, NUL] <= data[..]
  {
    data[env] := NUL;
    assert data[..env + 1] == data[..start] + data[start..env] + [NUL];
    assert data[..start] == old(data[..start]) && data[start..env] == text + [NUL];
  }

  /** What has been written after the first arguments have been copied. */
  function Written(name: string, done: seq<string>): string {
    if done == [] then name else NewText(name, done)
  }

  lemma WrittenSnoc(name: string, args: seq<string>, i: nat)
    requires i < |args|
    ensures Written(name, args[..i + 1]) ==
            Written(name, args[..i]) + [if i == 0 then '=' else ' '] + args[i]
  {
    assert args[..i + 1][..i] == args[..i];
  }

  lemma {:induction false} JoinPrefixLength(args: seq<string>, i: nat)
    requires 0 < i <= |args|
    ensures |Join(args[..i])| <= |Join(args)|
    decreases |args| - i
  {
    if i == |args| {
      assert args[..i] == args;
    } else {
      assert args[..i + 1][..i] == args[..i];
      JoinPrefixLength(args, i + 1);
    }
  }

  // ---- the store ----

  class Environment {
    const data: array<char>     // ENV_SIZE bytes
    const flashSize: nat        // CFG_ENV_SIZE: the bytes plus their header
    const config: Config
    ghost var entries: seq<Entry>

    ghost predicate Valid()
      reads this, data
    {
      && data.Length <= flashSize
      && (config.ethaddrOnce.Some? ==> NUL !in config.ethaddrOnce.value)
      && Stores(data[..], entries)
    }

    /** A cleared environment area holds no variables. */
    constructor (size: nat, header: nat, cfg: Config)
      requires size >= 2 && (cfg.ethaddrOnce.Some? ==> NUL !in cfg.ethaddrOnce.value)
      ensures Valid() && fresh(data)
      ensures entries == [] && data.Length == size && config == cfg
    {
      data := new char[size](_ => NUL);
      flashSize := size + header;
      config := cfg;
      entries := [];
    }

    /** `getenv`: the index of the value of `name`, if it is set. */
    method GetEnv(name: string) returns (r: Option<nat>)
      requires Valid() && NUL !in name
      ensures r.None? <==> Lookup(entries, KeyOf(name)) == None
      ensures r.Some? ==> StringAt(data[..], r.value, Lookup(entries, KeyOf(name)).value)
    {
      var oldval, env, nxt, k := Search(name);
      if oldval < 0 {
        return None;
      }
      hide Flat, Image, Lookup, Pos, Text;
      LookupAt(entries, k);
      ValueStored(data[..], entries, k);
      return Some(oldval);
    }

    /** The search loop of `getenv` and `_do_setenv`: where the entry for `name` starts and ends. */
    method Search(name: string) returns (oldval: int, env: nat, nxt: nat, ghost k: nat)
      requires Valid() && NUL !in name
      ensures oldval < 0 ==> Lookup(entries, KeyOf(name)) == None
      ensures oldval >= 0 ==>
                && k < |entries| && entries[k].name == KeyOf(name)
                && env == Pos(entries, k) && nxt == env + |Text(entries[k])|
                && oldval == env + |entries[k].name| + 1
    {
      oldval, env, nxt, k := -1, 0, 0, 0;
      AtEntryOrEnd(data[..], entries, 0);
      while data[env] != NUL
        invariant k <= |entries| && env == Pos(entries, k) < data.Length
        invariant data[env] == NUL <==> k == |entries|
        invariant forall j :: 0 <= j < k ==> entries[j].name != KeyOf(name)
        decreases |entries| - k
      {
        EntryAt(data[..], entries, k);
        assert WfEntry(entries[k]);
        var ok;
        ok, nxt := EntryEnd(data, flashSize, env, Text(entries[k]));
        if !ok {
          return;
        }
        oldval := EnvMatch(data, name, env, entries[k]);
        if oldval >= 0 {
          return;
        }
        env := nxt + 1;
        k := k + 1;
        AtEntryOrEnd(data[..], entries, k);
      }
      oldval := -1;
      LookupAbsent(entries, KeyOf(name));
    }

    /** Would the call be refused?  Decided before anything is written. */
    method Guard(c: Call, oldval: nat, ghost k: nat) returns (refused: bool)
      requires Valid() && k < |entries| && entries[k].name == KeyOf(c.name)
      requires oldval == Pos(entries, k) + |entries[k].name| + 1
      ensures refused <==> Refused(config, entries, c)
    {
      hide Flat, Image, Lookup, Pos, Text, WfEntry, Wf, KeyOf;
      LookupAt(entries, k);
      if !config.overwrite {
        if c.name == "serial#" {
          return true;
        }
        if c.name == "ethaddr" {
          if config.ethaddrOnce.None? {
            return true;
          }
          ValueStored(data[..], entries, k);
          var same := SameString(data, oldval, config.ethaddrOnce.value, entries[k].value);
          if !same {
            return true;
          }
        }
      }
      return DeviceRefuses(c);
    }

    /** Remove the entry at `env`, which ends at `nxt`, by moving the tail down over it. */
    method DeleteEntry(env: nat, nxt: nat, ghost k: nat)
      requires Valid() && k < |entries|
      requires env == Pos(entries, k) && nxt == env + |Text(entries[k])|
      modifies this`entries, data
      ensures Valid() && entries == old(entries)[..k] + old(entries)[k + 1..]
    {
      hide Flat, Image, Pos, Text, Wf, WfEntry;
      ghost var es, d := entries, data[..];
      EntryAt(d, es, k);
      AtEntryOrEnd(d, es, k + 1);
      if data[nxt + 1] == NUL {
        BeforeLast(d, es, k);
        CutLast(data, env);
        DropLastStores(d, es, data[..]);
        assert es[..k] + es[k + 1..] == es[..|es| - 1];
      } else {
        OnlyEndIsDouble(d, es);
        PosBounds(es, k);
        CutOut(data, env, nxt + 1, |Flat(es)|);
        CutStores(d, es, k, data[..]);
      }
      entries := es[..k] + es[k + 1..];
    }

    /** Append the new definition at the end, unless it does not fit. */
    method Append(name: string, args: seq<string>) returns (rc: int)
      requires Valid() && args != [] && NUL !in name && forall i :: 0 <= i < |args| ==> NUL !in args[i]
      requires forall i :: 0 <= i < |entries| ==> entries[i].name != KeyOf(name)
      modifies this`entries, data
      ensures Valid()
      ensures if |Flat(old(entries))| + |NewText(name, args)| + 2 > data.Length
              then rc == 1 && entries == old(entries)
              else rc == 0 && entries == old(entries) + [NewEntry(name, args)]
    {
      ghost var es, d := entries, data[..];
      var env := EndOfEntries();
      var len := EntryLength(name, args);
      if len > data.Length - env {
        return 1;
      }
      WriteEntry(data, env, name, args);
      NewEntryText(name, args);
      SnocStores(d, es, NewEntry(name, args), data[..]);
      entries := es + [NewEntry(name, args)];
      return 0;
    }

    method EndOfEntries() returns (env: nat)
      requires Valid()
      ensures env == |Flat(entries)| <= data.Length
    {
      if entries != [] {
        OnlyEndIsDouble(data[..], entries);
      } else {
        assert data[..][0] == data[..][..2][0] && data[..][1] == data[..][..2][1];
      }
      env := FindEnd(data, |Flat(entries)|);
    }

    /** `_do_setenv`: refuse, delete, replace or append. */
    method DoSetEnv(c: Call) returns (rc: int)
      requires Valid() && WfCall(c)
      modifies this`entries, data
      ensures Valid()
      ensures Outcome(entries, rc) == SetEnv(config, data.Length, old(entries), c)
    {
      var oldval, env, nxt, k := Search(c.name);
      if oldval >= 0 {
        var refused := Guard(c, oldval, k);
        if refused {
          return 1;
        }
        RemoveAt(entries, k);
        DeleteEntry(env, nxt, k);
      } else {
        LookupAbsent(entries, KeyOf(c.name));
        RemoveAbsent(entries, KeyOf(c.name));
      }
      if c.args == [] {
        return 0;
      }
      RemoveMembers(old(entries), KeyOf(c.name));
      assert forall i :: 0 <= i < |entries| ==> entries[i] in entries;
      rc := Append(c.name, c.args);
    }
  }
}
