/**
  The environment of `cmd_nvedit.c` seen as a list of variables in insertion
  order, the byte image that list is stored as, and the effect of one
  `_do_setenv` call on the list.
 */
module EnvSpec {
  import opened Common

  datatype Entry = Entry(name: string, value: string)

  /** Build configuration: CONFIG_ENV_OVERWRITE, and the value of CONFIG_ETHADDR when
      CONFIG_OVERWRITE_ETHADDR_ONCE is set. */
  datatype Config = Config(overwrite: bool, ethaddrOnce: Option<string>)

  const NUL := '\0'

  // ---- well-formed lists and their byte image ----

  ghost predicate WfEntry(e: Entry) {
    NUL !in e.name && '=' !in e.name && NUL !in e.value
  }

  ghost predicate Wf(es: seq<Entry>) {
    && (forall i :: 0 <= i < |es| ==> WfEntry(es[i]))
    && (forall i, j :: 0 <= i < j < |es| ==> es[i].name != es[j].name)
  }

  function Text(e: Entry): string {
    e.name + "=" + e.value
  }

  /** Every entry followed by its terminator. */
  function Flat(es: seq<Entry>): string {
    if es == [] then "" else Flat(es[..|es| - 1]) + Text(es[|es| - 1]) + [NUL]
  }

  /** The whole image; the empty environment is a double NUL too. */
  function Image(es: seq<Entry>): string {
    if es == [] then [NUL, NUL] else Flat(es) + [NUL]
  }

  /** Where entry `k` starts. */
  function Pos(es: seq<Entry>, k: nat): nat
    requires k <= |es|
  {
    |Flat(es[..k])|
  }

  lemma Assoc(a: string, b: string, c: string, d: string)
    ensures (a + b) + c + d == a + (b + c + d)
  {
  }

  lemma {:induction false} FlatConcat(a: seq<Entry>, b: seq<Entry>)
    ensures Flat(a + b) == Flat(a) + Flat(b)
  {
    if b == [] {
      assert a + b == a;
    } else {
      var init, last := b[..|b| - 1], b[|b| - 1];
      assert (a + b)[..|a + b| - 1] == a + init;
      FlatConcat(a, init);
      Assoc(Flat(a), Flat(init), Text(last), [NUL]);
    }
  }

  lemma FlatOne(e: Entry)
    ensures Flat([e]) == Text(e) + [NUL]
  {
    assert [e][..0] == [];
    assert Flat([e]) == Flat([]) + Text(e) + [NUL];
  }

  lemma FlatSplit(es: seq<Entry>, k: nat)
    requires k < |es|
    ensures Flat(es) == Flat(es[..k]) + (Text(es[k]) + [NUL]) + Flat(es[k + 1..])
    ensures Pos(es, k + 1) == Pos(es, k) + |Text(es[k])| + 1
  {
    assert es == es[..k] + [es[k]] + es[k + 1..];
    assert es[..k + 1] == es[..k] + [es[k]];
    FlatOne(es[k]);
    FlatConcat(es[..k], [es[k]]);
    FlatConcat(es[..k] + [es[k]], es[k + 1..]);
  }

  /** Entry `k` sits at `Pos(es, k)`, terminated. */
  lemma EntryInImage(es: seq<Entry>, k: nat)
    requires k < |es|
    ensures var p, n := Pos(es, k), |Text(es[k])|;
            && p + n + 1 == Pos(es, k + 1) < |Image(es)|
            && Image(es)[p..p + n] == Text(es[k])
            && Image(es)[p + n] == NUL
  {
    FlatSplit(es, k);
    var a, t, c := Flat(es[..k]), Text(es[k]), Flat(es[k + 1..]);
    Pieces(a, t + [NUL], c, [NUL]);
    InnerText(a + (t + [NUL]) + c + [NUL], |a|, t);
  }

  lemma InnerText(img: string, p: nat, t: string)
    requires p + |t| < |img| && img[p..p + |t| + 1] == t + [NUL]
    ensures img[p..p + |t|] == t && img[p + |t|] == NUL
  {
    assert img[p..p + |t|] == img[p..p + |t| + 1][..|t|];
    assert img[p + |t|] == img[p..p + |t| + 1][|t|];
  }

  lemma EndOfImage(es: seq<Entry>)
    ensures Pos(es, |es|) == |Flat(es)| < |Image(es)|
    ensures Image(es)[|Flat(es)|] == NUL
    ensures |es| > 0 ==> |Image(es)| == |Flat(es)| + 1
    ensures Flat(es) <= Image(es) || es == []
  {
    assert es[..|es|] == es;
  }

  ghost predicate NoDoubleNul(s: string) {
    forall i :: 0 <= i < |s| - 1 ==> !(s[i] == NUL && s[i + 1] == NUL)
  }

  /** Inside the entries a NUL is never followed by another one, so the double NUL marks the end. */
  lemma {:induction false} FlatNoDoubleNul(es: seq<Entry>)
    requires Wf(es)
    ensures NoDoubleNul(Flat(es))
    ensures es != [] ==> |Flat(es)| >= 2 && Flat(es)[|Flat(es)| - 1] == NUL && Flat(es)[0] != NUL
  {
    if es != [] {
      var init, last := es[..|es| - 1], es[|es| - 1];
      FlatNoDoubleNul(init);
      assert WfEntry(last);
      var f, t := Flat(init), Text(last);
      forall i | 0 <= i < |t| ensures t[i] != NUL {
      }
      var s := Flat(es);
      assert s == f + t + [NUL];
      forall i | 0 <= i < |s| - 1 ensures !(s[i] == NUL && s[i + 1] == NUL) {
        if i + 1 < |f| {
          assert s[i] == f[i] && s[i + 1] == f[i + 1];
        } else if i < |f| {
          assert s[i + 1] == t[0];
        } else {
          assert s[i] == t[i - |f|];
        }
      }
    }
  }

  /** In a non-empty image the first NUL followed by a NUL is the last terminator. */
  lemma DoubleNulIsEnd(es: seq<Entry>, i: nat)
    requires Wf(es) && es != [] && i + 1 < |Image(es)|
    ensures (Image(es)[i] == NUL && Image(es)[i + 1] == NUL) <==> i == |Flat(es)| - 1
  {
    FlatNoDoubleNul(es);
    if i + 1 < |Flat(es)| {
      assert Image(es)[i] == Flat(es)[i] && Image(es)[i + 1] == Flat(es)[i + 1];
    }
  }

  /** Cutting entry `k` out of the image leaves the image of the list without it. */
  lemma ImageWithout(es: seq<Entry>, k: nat)
    requires Wf(es) && k < |es| && |es| > 1
    ensures Pos(es, k) <= Pos(es, k + 1) <= |Flat(es)| < |Image(es)|
    ensures Image(es[..k] + es[k + 1..]) ==
            Image(es)[..Pos(es, k)] + Image(es)[Pos(es, k + 1)..|Flat(es)|] + [NUL]
  {
    FlatSplit(es, k);
    FlatConcat(es[..k], es[k + 1..]);
    Pieces(Flat(es[..k]), Text(es[k]) + [NUL], Flat(es[k + 1..]), [NUL]);
  }

  lemma Pieces(a: string, b: string, c: string, d: string)
    ensures var s := a + b + c + d; s[..|a|] == a && s[|a| + |b|..|a + b + c|] == c && s[|a|..|a| + |b|] == b
  {
  }

  lemma PrefixImage(es: seq<Entry>, k: nat)
    requires Wf(es) && k < |es|
    ensures Wf(es[..k]) && (Pos(es, k) == 0 <==> k == 0)
    ensures Pos(es, k) < |Image(es)| && Image(es)[..Pos(es, k)] == Flat(es[..k])
    ensures k > 0 ==> Image(es[..k]) == Image(es)[..Pos(es, k)] + [NUL]
  {
    FlatSplit(es, k);
    FlatNoDoubleNul(es[..k]);
    Pieces(Flat(es[..k]), Text(es[k]) + [NUL], Flat(es[k + 1..]), [NUL]);
  }

  lemma ImageSnoc(es: seq<Entry>, e: Entry)
    ensures Image(es + [e]) == Flat(es) + Text(e) + [NUL, NUL]
  {
    assert (es + [e])[..|es|] == es;
  }

  // ---- stores: byte sequences holding an image ----

  ghost predicate Stores(d: string, es: seq<Entry>) {
    Wf(es) && |Image(es)| <= |d| && d[..|Image(es)|] == Image(es)
  }

  /** A terminated string sits at `at`. */
  ghost predicate StringAt(d: string, at: nat, s: string) {
    NUL !in s && at + |s| < |d| && d[at..at + |s|] == s && d[at + |s|] == NUL
  }

  lemma EntryAt(d: string, es: seq<Entry>, k: nat)
    requires Stores(d, es) && k < |es|
    ensures StringAt(d, Pos(es, k), Text(es[k]))
    ensures Pos(es, k) + |Text(es[k])| + 1 == Pos(es, k + 1)
  {
    EntryInImage(es, k);
    var p, n := Pos(es, k), |Text(es[k])|;
    SlicePrefix(d, |Image(es)|, p, p + n);
    assert d[p + n] == d[..|Image(es)|][p + n];
    assert WfEntry(es[k]);
    TextNoNul(es[k]);
  }

  lemma SlicePrefix(d: string, n: nat, p: nat, q: nat)
    requires p <= q <= n <= |d|
    ensures d[..n][p..q] == d[p..q]
  {
  }

  lemma TextNoNul(e: Entry)
    requires WfEntry(e)
    ensures NUL !in Text(e)
  {
  }

  /** The scan over entries stops exactly at the end of the list. */
  lemma AtEntryOrEnd(d: string, es: seq<Entry>, k: nat)
    requires Stores(d, es) && k <= |es|
    ensures Pos(es, k) < |d|
    ensures d[Pos(es, k)] == NUL <==> k == |es|
  {
    if k < |es| {
      EntryAt(d, es, k);
      var p, t := Pos(es, k), Text(es[k]);
      assert d[p] == d[p..p + |t|][0] == t[0];
    } else {
      EndOfImage(es);
      assert d[|Flat(es)|] == Image(es)[|Flat(es)|];
    }
  }

  lemma TailSlice(d: string, p: nat, t: string, n: nat)
    requires p + |t| <= |d| && d[p..p + |t|] == t && n <= |t|
    ensures d[p + n..p + |t|] == t[n..]
  {
    assert d[p..p + |t|][n..] == d[p + n..p + |t|];
  }

  lemma ValueAt(d: string, e: Entry, p: nat)
    requires StringAt(d, p, Text(e))
    ensures StringAt(d, p + |e.name| + 1, e.value)
  {
    ValueInText(e);
    hide Text;
    TailSlice(d, p, Text(e), |e.name| + 1);
  }

  lemma ValueInText(e: Entry)
    ensures |Text(e)| == |e.name| + 1 + |e.value| && Text(e)[|e.name| + 1..] == e.value
    ensures forall c :: c in e.value ==> c in Text(e)
  {
  }

  lemma ValueStored(d: string, es: seq<Entry>, k: nat)
    requires Stores(d, es) && k < |es|
    ensures StringAt(d, Pos(es, k) + |es[k].name| + 1, es[k].value)
  {
    EntryAt(d, es, k);
    ValueAt(d, es[k], Pos(es, k));
  }

  /** After the tail has been moved down over entry `k`, the store holds the list without it. */
  lemma CutStores(d: string, es: seq<Entry>, k: nat, after: string)
    requires Stores(d, es) && k + 1 < |es|
    requires Pos(es, k) <= Pos(es, k + 1) <= |Flat(es)| < |d|
    requires d[..Pos(es, k)] + d[Pos(es, k + 1)..|Flat(es)|] + [NUL] <= after
    ensures Stores(after, es[..k] + es[k + 1..])
  {
    ImageWithout(es, k);
    SlicePrefix(d, |Image(es)|, 0, Pos(es, k));
    SlicePrefix(d, |Image(es)|, Pos(es, k + 1), |Flat(es)|);
    WithoutWf(es, k);
  }

  lemma WithoutWf(es: seq<Entry>, k: nat)
    requires Wf(es) && k < |es|
    ensures Wf(es[..k] + es[k + 1..])
  {
  }

  /** Terminating the image where the last entry starts removes it. */
  lemma DropLastStores(d: string, es: seq<Entry>, after: string)
    requires Stores(d, es) && es != []
    requires var p := Pos(es, |es| - 1); p < |d| && (if p > 0 then d[..p] + [NUL] <= after else [NUL, NUL] <= after)
    ensures Stores(after, es[..|es| - 1])
  {
    PrefixImage(es, |es| - 1);
    SlicePrefix(d, |Image(es)|, 0, Pos(es, |es| - 1));
  }

  lemma BeforeLast(d: string, es: seq<Entry>, k: nat)
    requires Stores(d, es) && k < |es|
    ensures Pos(es, k) < |d|
    ensures Pos(es, k) > 0 ==> d[Pos(es, k) - 1] == NUL
  {
    EntryAt(d, es, k);
    if k > 0 {
      EntryAt(d, es, k - 1);
    }
  }

  lemma PosBounds(es: seq<Entry>, k: nat)
    requires k + 1 < |es|
    ensures Pos(es, k) < Pos(es, k + 1) < |Flat(es)|
  {
    FlatSplit(es, k);
    FlatSplit(es, k + 1);
  }

  lemma SnocStores(d: string, es: seq<Entry>, e: Entry, after: string)
    requires Stores(d, es) && WfEntry(e) && forall i :: 0 <= i < |es| ==> es[i].name != e.name
    requires |Flat(es)| <= |d| && d[..|Flat(es)|] + Text(e) + [NUL, NUL] <= after
    ensures Stores(after, es + [e])
  {
    ImageSnoc(es, e);
    SlicePrefix(d, |Image(es)|, 0, |Flat(es)|);
    assert Image(es)[..|Flat(es)|] == Flat(es);
    SnocWf(es, e);
  }

  lemma SnocWf(es: seq<Entry>, e: Entry)
    requires Wf(es) && WfEntry(e) && forall i :: 0 <= i < |es| ==> es[i].name != e.name
    ensures Wf(es + [e])
  {
  }

  // ---- lookup and removal on the list ----

  function Lookup(es: seq<Entry>, name: string): Option<string> {
    if es == [] then None
    else if es[0].name == name then Some(es[0].value)
    else Lookup(es[1..], name)
  }

  function Remove(es: seq<Entry>, name: string): seq<Entry> {
    if es == [] then []
    else (if es[0].name == name then [] else [es[0]]) + Remove(es[1..], name)
  }

  lemma {:induction false} LookupAt(es: seq<Entry>, k: nat)
    requires Wf(es) && k < |es|
    ensures Lookup(es, es[k].name) == Some(es[k].value)
  {
    if k > 0 {
      LookupAt(es[1..], k - 1);
    }
  }

  lemma {:induction false} LookupAbsent(es: seq<Entry>, name: string)
    ensures Lookup(es, name) == None <==> forall i :: 0 <= i < |es| ==> es[i].name != name
  {
    if es != [] {
      LookupAbsent(es[1..], name);
      if forall i :: 0 <= i < |es[1..]| ==> es[1..][i].name != name {
        forall i | 0 <= i < |es| && es[0].name != name ensures es[i].name != name {
          if i > 0 {
            assert es[1..][i - 1].name != name;
          }
        }
      }
    }
  }

  lemma {:induction false} RemoveAbsent(es: seq<Entry>, name: string)
    requires forall i :: 0 <= i < |es| ==> es[i].name != name
    ensures Remove(es, name) == es
  {
    if es != [] {
      RemoveAbsent(es[1..], name);
    }
  }

  lemma {:induction false} RemoveAt(es: seq<Entry>, k: nat)
    requires Wf(es) && k < |es|
    ensures Remove(es, es[k].name) == es[..k] + es[k + 1..]
  {
    if k == 0 {
      RemoveAbsent(es[1..], es[0].name);
    } else {
      RemoveAt(es[1..], k - 1);
      assert es[1..][k - 1] == es[k];
      assert es[..k] + es[k + 1..] == [es[0]] + (es[1..][..k - 1] + es[1..][k..]);
    }
  }

  lemma {:induction false} RemoveMembers(es: seq<Entry>, name: string)
    ensures forall e :: e in Remove(es, name) <==> e in es && e.name != name
  {
    if es != [] {
      RemoveMembers(es[1..], name);
      assert es == [es[0]] + es[1..];
    }
  }

  lemma {:induction false} RemoveWf(es: seq<Entry>, name: string)
    requires Wf(es)
    ensures Wf(Remove(es, name))
  {
    if k: nat :| k < |es| && es[k].name == name {
      RemoveAt(es, k);
    } else {
      RemoveAbsent(es, name);
    }
  }

  lemma {:induction false} LookupRemove(es: seq<Entry>, name: string, other: string)
    ensures Lookup(Remove(es, name), other) == if other == name then None else Lookup(es, other)
  {
    if es != [] {
      LookupRemove(es[1..], name, other);
      if es[0].name != name {
        assert Remove(es, name)[1..] == Remove(es[1..], name);
      } else {
        assert Remove(es, name) == Remove(es[1..], name);
      }
    }
  }

  lemma {:induction false} LookupSnoc(es: seq<Entry>, e: Entry, name: string)
    ensures Lookup(es + [e], name) ==
            if Lookup(es, name) != None then Lookup(es, name) else if e.name == name then Some(e.value) else None
  {
    if es == [] {
      assert [e][1..] == [];
      assert es + [e] == [e];
    } else {
      LookupSnoc(es[1..], e, name);
      assert (es + [e])[1..] == es[1..] + [e];
    }
  }

  // ---- names as arguments ----

  /** The part of an argument name that `envmatch` compares: everything before the first '='. */
  function KeyOf(s: string): string {
    if s == "" || s[0] == '=' then "" else [s[0]] + KeyOf(s[1..])
  }

  lemma {:induction false} KeyOfIs(s: string, k: nat)
    requires k <= |s| && '=' !in s[..k] && (k == |s| || s[k] == '=')
    ensures KeyOf(s) == s[..k]
  {
    if k > 0 {
      assert s[0] == s[..k][0];
      assert s[1..][..k - 1] == s[..k][1..];
      KeyOfIs(s[1..], k - 1);
    }
  }

  lemma {:induction false} KeyOfPrefix(s: string)
    ensures KeyOf(s) <= s && '=' !in KeyOf(s)
    ensures |KeyOf(s)| < |s| ==> s[|KeyOf(s)|] == '='
    ensures '=' !in s <==> KeyOf(s) == s
  {
    if s != "" && s[0] != '=' {
      KeyOfPrefix(s[1..]);
      assert s == [s[0]] + s[1..];
    }
  }

  /** Two names that agree up to `j` and then part cannot have the same key. */
  lemma NoMatch(s: string, name: string, j: nat)
    requires NUL !in name && '=' !in name && NUL !in s
    requires j <= |s| && j <= |name| && s[..j] == name[..j]
    requires j < |name| ==> j == |s| || s[j] != name[j]
    requires j == |name| ==> j < |s| && s[j] != '='
    ensures KeyOf(s) != name
  {
    KeyOfPrefix(s);
  }

  // ---- one call of _do_setenv ----

  function Join(args: seq<string>): string
    requires args != []
  {
    if |args| == 1 then args[0] else Join(args[..|args| - 1]) + " " + args[|args| - 1]
  }

  /** The text written for `name args...`; its own name is the key of `name`. */
  function NewText(name: string, args: seq<string>): string
    requires args != []
  {
    name + "=" + Join(args)
  }

  function NewEntry(name: string, args: seq<string>): Entry
    requires args != []
  {
    KeyOfPrefix(name);
    Entry(KeyOf(name), NewText(name, args)[|KeyOf(name)| + 1..])
  }

  lemma {:induction false} JoinNoNul(args: seq<string>)
    requires args != [] && forall i :: 0 <= i < |args| ==> NUL !in args[i]
    ensures NUL !in Join(args)
  {
    if |args| > 1 {
      JoinNoNul(args[..|args| - 1]);
    }
  }

  lemma SplitAtKey(name: string, rest: string, t: string, k: nat)
    requires t == name + "=" + rest && k == |KeyOf(name)|
    ensures k < |t| && t == KeyOf(name) + "=" + t[k + 1..]
    ensures '=' !in name ==> KeyOf(name) == name && t[k + 1..] == rest
  {
    KeyOfPrefix(name);
    assert t[..k] == name[..k] == KeyOf(name) && t[k] == '=';
    assert t == t[..k] + [t[k]] + t[k + 1..];
  }

  /** The written text is the text of an entry whose name is the key of the argument. */
  lemma NewEntryText(name: string, args: seq<string>)
    requires args != [] && NUL !in name && forall i :: 0 <= i < |args| ==> NUL !in args[i]
    ensures Text(NewEntry(name, args)) == NewText(name, args) && WfEntry(NewEntry(name, args))
    ensures '=' !in name ==> NewEntry(name, args) == Entry(name, Join(args))
  {
    JoinNoNul(args);
    SplitAtKey(name, Join(args), NewText(name, args), |KeyOf(name)|);
    NewEntryWf(name, Join(args), NewEntry(name, args));
  }

  lemma NewEntryWf(name: string, rest: string, e: Entry)
    requires NUL !in name && NUL !in rest && Text(e) == name + "=" + rest && e.name == KeyOf(name)
    ensures WfEntry(e)
  {
    KeyOfPrefix(name);
    var t := Text(e);
    assert forall i :: 0 <= i < |t| ==> t[i] != NUL;
    assert forall i :: 0 <= i < |e.value| ==> e.value[i] == t[|e.name| + 1 + i];
  }

  datatype Call = Call(name: string, args: seq<string>, deviceOk: bool)

  ghost predicate WfCall(c: Call) {
    NUL !in c.name && forall i :: 0 <= i < |c.args| ==> NUL !in c.args[i]
  }

  /** Write-once variables: refused when already set. */
  predicate ReadOnly(cfg: Config, name: string, current: string) {
    && !cfg.overwrite
    && (name == "serial#" || (name == "ethaddr" && (cfg.ethaddrOnce.None? || current != cfg.ethaddrOnce.value)))
  }

  /** Console and baud-rate variables: the device layer may refuse, and consoles cannot be deleted. */
  predicate DeviceRefuses(c: Call) {
    || (c.name in {"stdin", "stdout", "stderr"} && (c.args == [] || !c.deviceOk))
    || (c.name == "baudrate" && !c.deviceOk)
  }

  predicate Refused(cfg: Config, es: seq<Entry>, c: Call) {
    match Lookup(es, KeyOf(c.name))
    case None => false
    case Some(current) => ReadOnly(cfg, c.name, current) || DeviceRefuses(c)
  }

  predicate Overflows(size: nat, rest: seq<Entry>, c: Call)
    requires c.args != []
  {
    |Flat(rest)| + |NewText(c.name, c.args)| + 2 > size
  }

  datatype Outcome = Outcome(entries: seq<Entry>, rc: int)

  function SetEnv(cfg: Config, size: nat, es: seq<Entry>, c: Call): Outcome {
    if Refused(cfg, es, c) then
      Outcome(es, 1)
    else
      var rest := Remove(es, KeyOf(c.name));
      if c.args == [] then Outcome(rest, 0)
      else if Overflows(size, rest, c) then Outcome(rest, 1)
      else Outcome(rest + [NewEntry(c.name, c.args)], 0)
  }
}
