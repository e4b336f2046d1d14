/**
 * The variable store of Assignment01/version6.c: a fixed array of at most
 * one hundred name/value/scope entries and a count, with `set_var`,
 * `get_var`, `export_var`, `list_vars`, `printenc`, the `$name`
 * substitution of `eco`, and the command dispatch of `process_command`.
 */
module Variables {
  import opened Text

  const MaxVars: nat := 100
  /** `char var_name[64]`: at most 63 characters of a name are read. */
  const MaxName: nat := 63
  /** `char buffer[256]`: at most 255 characters of output. */
  const EcoLimit: nat := 255

  /** `global` is the entry's scope: false for a shell variable, true once
      exported to the environment. */
  datatype Var = Var(name: string, value: string, global: bool)

  // ---------------------------------------------------------------------
  // The store as a sequence of entries
  // ---------------------------------------------------------------------

  predicate DistinctNames(vs: seq<Var>)
  {
    forall i, j :: 0 <= i < j < |vs| ==> vs[i].name != vs[j].name
  }

  /** The index the lookup loops of `set_var`, `get_var` and `export_var`
      stop at: the first entry named `n`. */
  function Find(vs: seq<Var>, n: string): (r: Option<nat>)
    ensures r.Some? ==> r.value < |vs| && vs[r.value].name == n
    ensures r.Some? ==> forall k :: 0 <= k < r.value ==> vs[k].name != n
    ensures r.None? ==> forall k :: 0 <= k < |vs| ==> vs[k].name != n
  {
    if vs == [] then None
    else if vs[0].name == n then Some(0)
    else
      match Find(vs[1..], n)
      case Some(k) => Some(k + 1)
      case None => None
  }

  /** get_var: the value bound to `n`, or None for NULL. */
  function Lookup(vs: seq<Var>, n: string): (r: Option<string>)
    ensures r.Some? <==> exists k :: 0 <= k < |vs| && vs[k].name == n
    ensures r.Some? ==> exists k :: 0 <= k < |vs| && vs[k] == Var(n, r.value, vs[k].global)
  {
    match Find(vs, n)
    case Some(i) => Some(vs[i].value)
    case None => None
  }

  /** The bindings `get_var` sees, as a map: the first entry with a name
      wins. */
  function Env(vs: seq<Var>): map<string, string>
  {
    if vs == [] then map[] else Env(vs[1..])[vs[0].name := vs[0].value]
  }

  lemma {:induction false} EnvLookup(vs: seq<Var>, n: string)
    ensures Lookup(vs, n) == if n in Env(vs) then Some(Env(vs)[n]) else None
  {
    if vs != [] && vs[0].name != n {
      EnvLookup(vs[1..], n);
      match Find(vs[1..], n)
      case Some(k) =>
        assert Find(vs, n) == Some(k + 1);
      case None =>
        assert Find(vs, n) == None;
    }
  }

  /** The entries after `set_var(n, v, g)`. */
  function SetEntries(vs: seq<Var>, n: string, v: string, g: bool): seq<Var>
  {
    match Find(vs, n)
    case Some(i) => vs[i := Var(n, v, g)]
    case None => if |vs| < MaxVars then vs + [Var(n, v, g)] else vs
  }

  /** Whether `set_var(n, v, g)` stores anything: it does unless the name is
      new and the store is full ("Error: Variable limit reached"). */
  predicate SetStores(vs: seq<Var>, n: string)
  {
    Find(vs, n).Some? || |vs| < MaxVars
  }

  /** The entries after `export_var(n)`. */
  function ExportEntries(vs: seq<Var>, n: string): seq<Var>
  {
    match Find(vs, n)
    case Some(i) => vs[i := vs[i].(global := true)]
    case None => SetEntries(vs, n, "", true)
  }

  /** The entries of one scope, in insertion order. */
  function Scope(vs: seq<Var>, global: bool): (r: seq<Var>)
    ensures |r| <= |vs|
  {
    if vs == [] then []
    else
      var last := vs[|vs| - 1];
      Scope(vs[..|vs| - 1], global) + (if last.global == global then [last] else [])
  }

  /** After `set_var(n, v, g)`, `n` is bound to `v` in scope `g`, unless
      the store was full and `n` new, in which case nothing changed. */
  lemma SetDefines(vs: seq<Var>, n: string, v: string, g: bool)
    ensures SetStores(vs, n) ==> Lookup(SetEntries(vs, n, v, g), n) == Some(v)
    ensures SetStores(vs, n) ==> Var(n, v, g) in SetEntries(vs, n, v, g)
    ensures !SetStores(vs, n) ==> SetEntries(vs, n, v, g) == vs
  {
    var r := SetEntries(vs, n, v, g);
    match Find(vs, n)
    case Some(i) =>
      assert r[i] == Var(n, v, g);
    case None =>
      if |vs| < MaxVars {
        assert r[|vs|] == Var(n, v, g);
      }
  }

  /** Two stores that agree on every entry named `m`, where the longer has
      no further entry of that name, look `m` up alike. */
  lemma LookupAgrees(a: seq<Var>, b: seq<Var>, m: string)
    requires |a| <= |b|
    requires forall k :: 0 <= k < |a| && (a[k].name == m || b[k].name == m) ==> a[k] == b[k]
    requires forall k :: |a| <= k < |b| ==> b[k].name != m
    ensures Find(b, m) == Find(a, m) && Lookup(b, m) == Lookup(a, m)
  {
    match Find(a, m)
    case Some(i) =>
      assert b[i] == a[i];
      forall k | 0 <= k < i
        ensures b[k].name != m
      {
        assert a[k].name != m;
      }
      FindFirst(b, m, i);
    case None =>
      forall k | 0 <= k < |b|
        ensures b[k].name != m
      {
        if k < |a| {
          assert a[k].name != m;
        }
      }
      assert Find(b, m) == None;
  }

  /** The first entry named `n` is where the lookup loops stop. */
  lemma FindFirst(vs: seq<Var>, n: string, i: nat)
    requires i < |vs| && vs[i].name == n
    requires forall k :: 0 <= k < i ==> vs[k].name != n
    ensures Find(vs, n) == Some(i)
  {
    match Find(vs, n)
    case Some(j) =>
      assert !(j < i) && !(i < j);
    case None =>
  }

  /** `set_var` on one name leaves every other binding as it was. */
  lemma SetLeavesOthers(vs: seq<Var>, n: string, v: string, g: bool, m: string)
    requires m != n
    ensures Lookup(SetEntries(vs, n, v, g), m) == Lookup(vs, m)
    ensures forall k :: 0 <= k < |vs| && vs[k].name != n ==> SetEntries(vs, n, v, g)[k] == vs[k]
  {
    LookupAgrees(vs, SetEntries(vs, n, v, g), m);
  }

  /** The count grows by one exactly when a new name is appended. */
  lemma SetCount(vs: seq<Var>, n: string, v: string, g: bool)
    ensures |SetEntries(vs, n, v, g)| ==
              if Find(vs, n).None? && |vs| < MaxVars then |vs| + 1 else |vs|
  {
  }

  /** `set_var` never gives two entries the same name. */
  lemma SetKeepsDistinct(vs: seq<Var>, n: string, v: string, g: bool)
    requires DistinctNames(vs)
    ensures DistinctNames(SetEntries(vs, n, v, g))
  {
    var r := SetEntries(vs, n, v, g);
    forall i, j | 0 <= i < j < |r|
      ensures r[i].name != r[j].name
    {
      if j == |vs| {
        assert r[j].name == n && r[i] == vs[i];
      }
    }
  }

  /** After `export_var(n)`, `n` is in the environment; an existing value
      is kept, a new name is bound to the empty string; when the name is new
      and the store full, nothing changes. */
  lemma ExportDefines(vs: seq<Var>, n: string)
    ensures SetStores(vs, n) ==> exists k :: 0 <= k < |ExportEntries(vs, n)| && ExportEntries(vs, n)[k].name == n && ExportEntries(vs, n)[k].global
    ensures Find(vs, n).Some? ==> Lookup(ExportEntries(vs, n), n) == Lookup(vs, n)
    ensures Find(vs, n).None? ==> ExportEntries(vs, n) == SetEntries(vs, n, "", true)
  {
    var r := ExportEntries(vs, n);
    match Find(vs, n)
    case Some(i) =>
      assert r[i].name == n && r[i].global;
      assert Find(r, n) == Some(i);
    case None =>
      if |vs| < MaxVars {
        assert r[|vs|] == Var(n, "", true);
      }
  }

  /** `export_var` on one name leaves every other binding and scope alone. */
  lemma ExportLeavesOthers(vs: seq<Var>, n: string, m: string)
    requires m != n
    ensures Lookup(ExportEntries(vs, n), m) == Lookup(vs, m)
    ensures forall k :: 0 <= k < |vs| && vs[k].name != n ==> ExportEntries(vs, n)[k] == vs[k]
  {
    LookupAgrees(vs, ExportEntries(vs, n), m);
  }

  /** `export_var` never gives two entries the same name. */
  lemma ExportKeepsDistinct(vs: seq<Var>, n: string)
    requires DistinctNames(vs)
    ensures DistinctNames(ExportEntries(vs, n))
  {
    if Find(vs, n).None? {
      SetKeepsDistinct(vs, n, "", true);
    }
  }

  lemma {:induction false} ScopeMembers(vs: seq<Var>, global: bool, x: Var)
    ensures x in Scope(vs, global) <==> x in vs && x.global == global
  {
    if vs != [] {
      ScopeMembers(vs[..|vs| - 1], global, x);
      assert vs == vs[..|vs| - 1] + [vs[|vs| - 1]];
    }
  }

  /** `list_vars` shows every entry exactly once: the locals and the
      globals together are the store. */
  lemma {:induction false} ScopesPartition(vs: seq<Var>)
    ensures multiset(Scope(vs, false)) + multiset(Scope(vs, true)) == multiset(vs)
  {
    if vs != [] {
      ScopesPartition(vs[..|vs| - 1]);
      assert vs == vs[..|vs| - 1] + [vs[|vs| - 1]];
    }
  }

  /** Each scope keeps the store's insertion order. */
  lemma {:induction false} ScopeInOrder(vs: seq<Var>, global: bool)
    ensures IsSubseq(Scope(vs, global), vs)
  {
    if vs != [] {
      var init, last := vs[..|vs| - 1], vs[|vs| - 1];
      var s := Scope(init, global);
      ScopeInOrder(init, global);
      assert vs == init + [last];
      if last.global == global {
        assert Scope(vs, global) == s + [last];
        SubseqAppend(s, init, last);
      } else {
        assert Scope(vs, global) == s + [];
        assert s + [] == s;
        SubseqExtend(s, init, [last]);
      }
    }
  }

  lemma ScopeStep(vs: seq<Var>, i: nat, global: bool)
    requires i < |vs|
    ensures Scope(vs[..i + 1], global) == Scope(vs[..i], global) + (if vs[i].global == global then [vs[i]] else [])
  {
    assert vs[..i + 1][..i] == vs[..i];
  }

  // ---------------------------------------------------------------------
  // eco: $name substitution
  // ---------------------------------------------------------------------

  /** How many characters the name loop of `eco` reads from `s`: up to the
      first space or the end, at most `room`. */
  function NameLength(s: string, room: nat): (r: nat)
    ensures r <= |s| && r <= room
    ensures forall t :: 0 <= t < r ==> s[t] != ' '
    ensures r < |s| && r < room ==> s[r] == ' '
  {
    if s == [] || s[0] == ' ' || room == 0 then 0 else 1 + NameLength(s[1..], room - 1)
  }

  /** What a `$name` is replaced by: its value, or the text as written when
      the name is unbound. */
  function Replacement(env: map<string, string>, name: string): string
  {
    if name in env then env[name] else "$" + name
  }

  /** The output of `eco` for the rest `s` of its argument. `boundary` says
      whether the character before `s` is a space or there is none, which is
      when a `$` starts a substitution. After a name the loop resumes at the
      character that ended it, and the character before that is part of the
      name (or the `$`), never a space. */
  function Subst(env: map<string, string>, s: string, boundary: bool): string
    decreases |s|
  {
    if s == [] then []
    else if s[0] == '$' && boundary then
      Replacement(env, NameAfter(s)) + Subst(env, AfterName(s), false)
    else [s[0]] + Subst(env, s[1..], s[0] == ' ')
  }

  /** The name after the `$` that starts `s`. */
  function NameAfter(s: string): (r: string)
    requires s != []
    ensures 1 + |r| <= |s| && r == s[1..1 + |r|]
    ensures |r| == NameLength(s[1..], MaxName)
  {
    s[1..1 + NameLength(s[1..], MaxName)]
  }

  lemma NameSplit(s: string)
    requires s != []
    ensures s == [s[0]] + NameAfter(s) + AfterName(s)
  {
    assert s == [s[0]] + s[1..1 + |NameAfter(s)|] + s[1 + |NameAfter(s)|..];
  }

  /** What follows that name. */
  function AfterName(s: string): (r: string)
    requires s != []
    ensures r == s[1 + |NameAfter(s)|..]
  {
    s[1 + |NameAfter(s)|..]
  }

  function Substitute(vs: seq<Var>, s: string): string
  {
    Subst(Env(vs), s, true)
  }

  /** The value a whole word stands for in `eco`. */
  function WordValue(env: map<string, string>, w: string): string
  {
    if |w| > 0 && w[0] == '$' then Replacement(env, w[1..]) else w
  }

  function WordValues(env: map<string, string>, ws: seq<string>): (r: seq<string>)
    ensures |r| == |ws|
    ensures forall i :: 0 <= i < |ws| ==> r[i] == WordValue(env, ws[i])
  {
    if ws == [] then [] else [WordValue(env, ws[0])] + WordValues(env, ws[1..])
  }

  lemma {:induction false} NameLengthOfWord(name: string, rest: string, room: nat)
    requires forall c :: c in name ==> c != ' '
    requires |name| <= room
    requires rest == [] || rest[0] == ' '
    ensures NameLength(name + rest, room) == |name|
  {
    if name == [] {
      assert name + rest == rest;
    } else {
      assert name[0] in name;
      assert (name + rest)[0] == name[0] && (name + rest)[1..] == name[1..] + rest;
      assert forall c :: c in name[1..] ==> c in name;
      NameLengthOfWord(name[1..], rest, room - 1);
    }
  }

  /** Without a boundary, the characters of a word are copied as they are,
      `$` included. */
  lemma {:induction false} SubstInsideWord(env: map<string, string>, w: string, rest: string)
    requires forall c :: c in w ==> c != ' '
    ensures Subst(env, w + rest, false) == w + Subst(env, rest, false)
  {
    if w == [] {
      assert w + rest == rest;
    } else {
      assert w[0] in w;
      assert (w + rest)[0] == w[0] && (w + rest)[1..] == w[1..] + rest;
      assert forall c :: c in w[1..] ==> c in w;
      SubstInsideWord(env, w[1..], rest);
      assert Subst(env, w + rest, false) == [w[0]] + Subst(env, w[1..] + rest, false);
      assert w == [w[0]] + w[1..];
      Associate([w[0]], w[1..], Subst(env, rest, false));
    }
  }

  /** A `$name` word at a boundary becomes the name's replacement. */
  lemma SubstDollarWord(env: map<string, string>, name: string, rest: string)
    requires forall c :: c in name ==> c != ' '
    requires |name| <= MaxName
    requires rest == [] || rest[0] == ' '
    ensures Subst(env, ("$" + name) + rest, true) == Replacement(env, name) + Subst(env, rest, false)
  {
    var s := ("$" + name) + rest;
    assert s[0] == '$';
    assert s[1..] == name + rest;
    NameLengthOfWord(name, rest, MaxName);
    assert NameAfter(s) == name;
    assert AfterName(s) == rest;
  }

  /** A word not starting with `$` is copied as it is. */
  lemma SubstPlainWord(env: map<string, string>, w: string, rest: string, boundary: bool)
    requires w != [] && w[0] != '$'
    requires forall c :: c in w ==> c != ' '
    ensures Subst(env, w + rest, boundary) == w + Subst(env, rest, false)
  {
    var s := w + rest;
    assert w[0] in w;
    assert s[0] == w[0] && s[1..] == w[1..] + rest;
    assert forall c :: c in w[1..] ==> c in w;
    SubstInsideWord(env, w[1..], rest);
    assert w == [w[0]] + w[1..];
  }

  /** One word at a boundary becomes its WordValue. */
  lemma SubstWord(env: map<string, string>, w: string, rest: string)
    requires IsToken(w, {' '}) && |w| <= MaxName + 1
    requires rest == [] || rest[0] == ' '
    ensures Subst(env, w + rest, true) == WordValue(env, w) + Subst(env, rest, false)
  {
    if w[0] == '$' {
      assert w == "$" + w[1..];
      assert forall c :: c in w[1..] ==> c in w;
      SubstDollarWord(env, w[1..], rest);
    } else {
      SubstPlainWord(env, w, rest, true);
    }
  }

  /** `eco` works word by word: on words separated by single spaces, each
      `$name` word becomes the value bound to `name` (or stays as written
      when unbound) and every other word is copied. */
  lemma SubstituteWords(vs: seq<Var>, ws: seq<string>)
    requires forall w :: w in ws ==> IsToken(w, {' '}) && |w| <= MaxName + 1
    ensures Substitute(vs, Join(ws, ' ')) == Join(WordValues(Env(vs), ws), ' ')
  {
    SubstWords(Env(vs), ws);
  }

  lemma {:induction false} SubstWords(env: map<string, string>, ws: seq<string>)
    requires forall w :: w in ws ==> IsToken(w, {' '}) && |w| <= MaxName + 1
    ensures Subst(env, Join(ws, ' '), true) == Join(WordValues(env, ws), ' ')
  {
    if ws == [] {
    } else if |ws| == 1 {
      assert ws[0] in ws;
      SubstWord(env, ws[0], []);
      assert ws[0] + [] == ws[0];
    } else {
      assert ws[0] in ws;
      var tail := Join(ws[1..], ' ');
      JoinCons(ws, ' ');
      SubstWord(env, ws[0], [' '] + tail);
      assert ([' '] + tail)[0] == ' ' && ([' '] + tail)[1..] == tail;
      assert forall w :: w in ws[1..] ==> w in ws;
      SubstWords(env, ws[1..]);
      var vals := WordValues(env, ws);
      assert vals[1..] == WordValues(env, ws[1..]);
      JoinCons(vals, ' ');
    }
  }

  lemma JoinCons(ts: seq<string>, sep: char)
    requires |ts| >= 2
    ensures Join(ts, sep) == ts[0] + ([sep] + Join(ts[1..], sep))
  {
  }

  /** With no variable bound, `eco` prints its argument unchanged. */
  lemma {:induction false} SubstEmptyStore(s: string, boundary: bool)
    ensures Subst(map[], s, boundary) == s
    decreases |s|
  {
    if s != [] {
      if s[0] == '$' && boundary {
        SubstEmptyStore(AfterName(s), false);
        NameSplit(s);
      } else {
        SubstEmptyStore(s[1..], s[0] == ' ');
        assert s == [s[0]] + s[1..];
      }
    }
  }

  /** The output of `eco` from position `i` of its argument on, with the
      boundary test made as the loop makes it, on the character before. */
  function SubstFrom(env: map<string, string>, input: string, i: nat): string
    requires i <= |input|
    decreases |input| - i
  {
    if i == |input| then []
    else if input[i] == '$' && AtBoundary(input, i) then
      Replacement(env, input[i + 1..NameEnd(input, i)]) + SubstFrom(env, input, NameEnd(input, i))
    else [input[i]] + SubstFrom(env, input, i + 1)
  }

  /** Where the name after the `$` at `i` ends. */
  function NameEnd(input: string, i: nat): (r: nat)
    requires i < |input|
    ensures i < r <= |input|
  {
    i + 1 + NameLength(input[i + 1..], MaxName)
  }

  /** A `$` at a boundary contributes the replacement of the name after it. */
  lemma {:induction false} SubstFromDollar(env: map<string, string>, input: string, i: nat)
    requires i < |input| && input[i] == '$' && AtBoundary(input, i)
    ensures SubstFrom(env, input, i) ==
      Replacement(env, input[i + 1..NameEnd(input, i)]) + SubstFrom(env, input, NameEnd(input, i))
  {
  }

  /** Any other character is copied as it is. */
  lemma {:induction false} SubstFromPlain(env: map<string, string>, input: string, i: nat)
    requires i < |input| && !(input[i] == '$' && AtBoundary(input, i))
    ensures SubstFrom(env, input, i) == [input[i]] + SubstFrom(env, input, i + 1)
  {
  }

  /** The loop's view and the recursive one agree: after a name the
      character before the loop's position is never a space. */
  lemma {:induction false} SubstFromIsSubst(env: map<string, string>, input: string, i: nat)
    requires i <= |input|
    ensures SubstFrom(env, input, i) == Subst(env, input[i..], AtBoundary(input, i))
    decreases |input| - i
  {
    if i < |input| {
      if input[i] == '$' && AtBoundary(input, i) {
        SubstFromDollar(env, input, i);
        SubstDollarAt(env, input, i);
        SubstFromIsSubst(env, input, NameEnd(input, i));
      } else {
        SubstFromPlain(env, input, i);
        SubstPlainAt(env, input, i);
        SubstFromIsSubst(env, input, i + 1);
      }
    }
  }

  /** Subst, on the suffix at a `$` at a boundary, replaces the name and
      goes on without a boundary: the name ends at a non-space. */
  lemma SubstDollarAt(env: map<string, string>, input: string, i: nat)
    requires i < |input| && input[i] == '$' && AtBoundary(input, i)
    ensures Subst(env, input[i..], true) ==
      Replacement(env, input[i + 1..NameEnd(input, i)]) + Subst(env, input[NameEnd(input, i)..], AtBoundary(input, NameEnd(input, i)))
  {
    var s := input[i..];
    var next := NameEnd(input, i);
    var k := next - i - 1;
    assert s[1..] == input[i + 1..];
    assert NameAfter(s) == input[i + 1..next];
    assert AfterName(s) == input[next..];
    if k > 0 {
      assert input[i + 1..][k - 1] == input[next - 1];
    }
    assert !AtBoundary(input, next);
  }

  /** Subst, on the suffix at any other character, copies it. */
  lemma SubstPlainAt(env: map<string, string>, input: string, i: nat)
    requires i < |input| && !(input[i] == '$' && AtBoundary(input, i))
    ensures Subst(env, input[i..], AtBoundary(input, i)) ==
      [input[i]] + Subst(env, input[i + 1..], AtBoundary(input, i + 1))
  {
    var s := input[i..];
    assert s[0] == input[i] && s[1..] == input[i + 1..];
  }

  /** The loop's view from the start is `eco`'s output. */
  lemma SubstituteIsSubstFrom(vs: seq<Var>, input: string)
    ensures Substitute(vs, input) == SubstFrom(Env(vs), input, 0)
  {
    SubstFromIsSubst(Env(vs), input, 0);
    assert input[0..] == input;
  }

  // ---------------------------------------------------------------------
  // process_command
  // ---------------------------------------------------------------------

  predicate HasPrefix(s: string, p: string)
  {
    |p| <= |s| && s[..|p|] == p
  }

  /** `s` without its leading characters `c`. */
  function DropLeading(s: string, c: char): (r: string)
    ensures |r| <= |s| && r == s[|s| - |r|..]
    ensures r == [] || r[0] != c
    ensures forall k :: 0 <= k < |s| - |r| ==> s[k] == c
  {
    if s != [] && s[0] == c then DropLeading(s[1..], c) else s
  }

  /** The trim loop of `export`: step past the spaces before the name. */
  method TrimSpaces(s: string) returns (r: string)
    ensures r == DropLeading(s, ' ')
  {
    var i := 0;
    while i < |s| && s[i] == ' '
      invariant 0 <= i <= |s|
      invariant DropLeading(s[i..], ' ') == DropLeading(s, ' ')
    {
      DropLeadingStep(s, i, ' ');
      i := i + 1;
    }
    DropLeadingStop(s, i, ' ');
    r := s[i..];
  }

  /** Dropping one more leading `c`. */
  lemma DropLeadingStep(s: string, i: nat, c: char)
    requires i < |s| && s[i] == c
    ensures DropLeading(s[i..], c) == DropLeading(s[i + 1..], c)
  {
    assert s[i..][1..] == s[i + 1..];
  }

  /** Nothing to drop before a character other than `c`. */
  lemma DropLeadingStop(s: string, i: nat, c: char)
    requires i <= |s| && (i == |s| || s[i] != c)
    ensures DropLeading(s[i..], c) == s[i..]
  {
  }

  /** The longest prefix of `s` without the character `c`. */
  function Before(s: string, c: char): (r: string)
    ensures |r| <= |s| && r == s[..|r|]
    ensures c !in r
    ensures |r| < |s| ==> s[|r|] == c
  {
    if s == [] || s[0] == c then [] else [s[0]] + Before(s[1..], c)
  }

  /** The `set` operand as `strtok(.., "=")` and `strtok(NULL, "")` split
      it: leading `=` are skipped, the name runs to the next `=`, the value
      is everything after that `=`. A missing name or an empty value is None
      (the "Invalid set syntax" error). */
  function ParseAssignment(body: string): (r: Option<(string, string)>)
    ensures r.Some? ==> r.value.0 != [] && '=' !in r.value.0 && r.value.1 != []
    ensures r.Some? ==> DropLeading(body, '=') == r.value.0 + "=" + r.value.1
  {
    var rest := DropLeading(body, '=');
    var name := Before(rest, '=');
    if name == [] || |name| == |rest| || rest[|name| + 1..] == [] then None
    else
      assert rest == name + "=" + rest[|name| + 1..];
      Some((name, rest[|name| + 1..]))
  }

  /** `set name=value` round trip: a name without `=` and a non-empty value
      are read back exactly; the value may itself contain `=`. */
  lemma ParseAssignmentOf(name: string, value: string)
    requires name != [] && '=' !in name && value != []
    ensures ParseAssignment(name + "=" + value) == Some((name, value))
  {
    var body := name + "=" + value;
    assert body[0] == name[0];
    assert name[0] in name;
    assert DropLeading(body, '=') == body;
    BeforeOf(name, "=" + value, '=');
    assert body == name + ("=" + value);
    assert body[|name| + 1..] == value;
  }

  /** `strtok` skips leading `=` before the name, so `set =name=value`
      binds the name as if the `=` were not there. */
  lemma ParseAssignmentSkipsEquals(name: string, value: string)
    requires name != [] && '=' !in name && value != []
    ensures ParseAssignment("=" + name + "=" + value) == Some((name, value))
  {
    var body := name + "=" + value;
    var s := "=" + name + "=" + value;
    assert s[0] == '=' && s[1..] == body;
    assert DropLeading(s, '=') == DropLeading(body, '=');
    ParseAssignmentOf(name, value);
  }

  lemma {:induction false} BeforeOf(w: string, rest: string, c: char)
    requires c !in w
    requires rest != [] && rest[0] == c
    ensures Before(w + rest, c) == w
  {
    if w == [] {
      assert w + rest == rest;
    } else {
      assert w[0] in w;
      assert (w + rest)[0] == w[0] && (w + rest)[1..] == w[1..] + rest;
      BeforeOf(w[1..], rest, c);
    }
  }

  datatype Request =
    | PrintEnv
    | Echo(text: string)
    | Assign(binding: Option<(string, string)>)
    | Export(name: string)
    | ListVars
    | Unknown(command: string)

  /** The branch `process_command` takes, tested in its order; `printenc`
      and `list` are prefix tests, so `listing` lists too. */
  function ParseRequest(command: string): (r: Request)
    ensures r.Echo? ==> command == "eco " + r.text
    ensures r.Unknown? ==> r.command == command
    ensures r.Export? ==> HasPrefix(command, "export ") && r.name == DropLeading(command[7..], ' ')
    ensures r.Unknown? <==>
              && !HasPrefix(command, "printenc") && !HasPrefix(command, "eco ")
              && !HasPrefix(command, "set ") && !HasPrefix(command, "export ")
              && !HasPrefix(command, "list")
  {
    if HasPrefix(command, "printenc") then PrintEnv
    else if HasPrefix(command, "eco ") then Echo(command[4..])
    else if HasPrefix(command, "set ") then Assign(ParseAssignment(command[4..]))
    else if HasPrefix(command, "export ") then Export(DropLeading(command[7..], ' '))
    else if HasPrefix(command, "list") then ListVars
    else Unknown(command)
  }

  /** `set name=value` reaches `set_var(name, value, 0)`. */
  lemma SetCommand(name: string, value: string)
    requires name != [] && '=' !in name && value != []
    ensures ParseRequest("set " + name + "=" + value) == Assign(Some((name, value)))
  {
    var command := "set " + name + "=" + value;
    assert command[..4] == "set ";
    assert !HasPrefix(command, "printenc") by {
      if |command| >= 8 {
        assert command[..8][0] == 's';
      }
    }
    assert !HasPrefix(command, "eco ") by {
      assert command[..4][0] == 's';
    }
    assert command[4..] == name + "=" + value;
    ParseAssignmentOf(name, value);
  }

  datatype Reply =
    | Environment(entries: seq<Var>)
    | Echoed(text: string)
    | Assigned(stored: bool)
    | InvalidSet
    | Exported(stored: bool)
    | Listing(locals: seq<Var>, globals: seq<Var>)
    | UnknownCommand(command: string)

  function EntriesAfter(vs: seq<Var>, req: Request): seq<Var>
  {
    if req.Assign? && req.binding.Some? then SetEntries(vs, req.binding.value.0, req.binding.value.1, false)
    else if req.Export? then ExportEntries(vs, req.name)
    else vs
  }

  function ReplyTo(vs: seq<Var>, req: Request): Reply
  {
    match req
    case PrintEnv => Environment(vs)
    case Echo(t) => Echoed(Substitute(vs, t))
    case Assign(b) => if b.Some? then Assigned(SetStores(vs, b.value.0)) else InvalidSet
    case Export(n) => Exported(SetStores(vs, n))
    case ListVars => Listing(Scope(vs, false), Scope(vs, true))
    case Unknown(c) => UnknownCommand(c)
  }

  /** A well-formed `set` followed by `eco $name` prints the value, provided
      the store had room. */
  lemma SetThenEcho(vs: seq<Var>, name: string, value: string)
    requires name != [] && '=' !in name && ' ' !in name && |name| <= MaxName && value != []
    requires SetStores(vs, name)
    ensures var after := EntriesAfter(vs, ParseRequest("set " + name + "=" + value));
      Substitute(after, "$" + name) == value
  {
    SetCommand(name, value);
    var after := SetEntries(vs, name, value, false);
    SetDefines(vs, name, value, false);
    assert IsToken("$" + name, {' '}) by {
      assert forall c :: c in "$" + name ==> c == '$' || c in name;
    }
    EnvLookup(after, name);
    SubstWord(Env(after), "$" + name, []);
    assert ("$" + name)[1..] == name;
    assert "$" + name + [] == "$" + name;
  }

  /** No command ever gives two entries the same name. */
  lemma CommandKeepsDistinct(vs: seq<Var>, command: string)
    requires DistinctNames(vs)
    ensures DistinctNames(EntriesAfter(vs, ParseRequest(command)))
  {
    var req := ParseRequest(command);
    if req.Assign? && req.binding.Some? {
      SetKeepsDistinct(vs, req.binding.value.0, req.binding.value.1, false);
    } else if req.Export? {
      ExportKeepsDistinct(vs, req.name);
    }
  }

  // ---------------------------------------------------------------------
  // The store itself
  // ---------------------------------------------------------------------

  class VariableStore {
    var vars: array<Var>
    var count: nat

    ghost predicate Valid()
      reads this, vars
    {
      vars.Length == MaxVars && count <= MaxVars
    }

    /** The entries, in insertion order. */
    function Entries(): (r: seq<Var>)
      reads this, vars
      requires Valid()
      ensures |r| == count <= MaxVars
    {
      vars[..count]
    }

    constructor ()
      ensures Valid() && fresh(vars)
      ensures Entries() == []
    {
      vars := new Var[MaxVars](_ => Var([], [], false));
      count := 0;
    }

    /** set_var; `stored` is false for "Error: Variable limit reached". */
    method SetVar(name: string, value: string, global: bool) returns (stored: bool)
      requires Valid()
      modifies this, vars
      ensures Valid() && vars == old(vars)
      ensures Entries() == SetEntries(old(Entries()), name, value, global)
      ensures stored == SetStores(old(Entries()), name)
    {
      var i := 0;
      while i < count
        invariant 0 <= i <= count
        invariant forall k :: 0 <= k < i ==> vars[k].name != name
      {
        if vars[i].name == name {
          assert Find(Entries(), name) == Some(i);
          vars[i] := Var(name, value, global);
          assert vars[..count] == old(Entries())[i := Var(name, value, global)];
          return true;
        }
        i := i + 1;
      }
      assert Find(Entries(), name) == None;
      if count < MaxVars {
        vars[count] := Var(name, value, global);
        count := count + 1;
        assert vars[..count] == old(Entries()) + [Var(name, value, global)];
        stored := true;
      } else {
        stored := false;
      }
    }

    /** get_var. */
    method GetVar(name: string) returns (value: Option<string>)
      requires Valid()
      ensures value == Lookup(Entries(), name)
    {
      var i := 0;
      while i < count
        invariant 0 <= i <= count
        invariant forall k :: 0 <= k < i ==> vars[k].name != name
      {
        if vars[i].name == name {
          assert Find(Entries(), name) == Some(i);
          return Some(vars[i].value);
        }
        i := i + 1;
      }
      assert Find(Entries(), name) == None;
      return None;
    }

    /** export_var. */
    /** export_var; `stored` is false when the name was new and `set_var`
        found the store full. */
    method ExportVar(name: string) returns (stored: bool)
      requires Valid()
      modifies this, vars
      ensures Valid() && vars == old(vars)
      ensures Entries() == ExportEntries(old(Entries()), name)
      ensures stored == SetStores(old(Entries()), name)
    {
      var i := 0;
      while i < count
        invariant 0 <= i <= count
        invariant forall k :: 0 <= k < i ==> vars[k].name != name
      {
        if vars[i].name == name {
          assert Find(Entries(), name) == Some(i);
          vars[i] := vars[i].(global := true);
          assert vars[..count] == old(Entries())[i := old(Entries())[i].(global := true)];
          return true;
        }
        i := i + 1;
      }
      assert Find(Entries(), name) == None;
      stored := SetVar(name, "", true);
    }

    /** list_vars: the locals, then the globals, each in insertion order. */
    method ListVars() returns (locals: seq<Var>, globals: seq<Var>)
      requires Valid()
      ensures locals == Scope(Entries(), false)
      ensures globals == Scope(Entries(), true)
    {
      locals := ScopeEntries(false);
      globals := ScopeEntries(true);
    }

    /** One of the two loops of list_vars: the entries of one scope. */
    method ScopeEntries(global: bool) returns (r: seq<Var>)
      requires Valid()
      ensures r == Scope(Entries(), global)
    {
      ghost var vs := Entries();
      r := [];
      var i := 0;
      while i < count
        invariant 0 <= i <= count
        invariant r == Scope(vs[..i], global)
      {
        ScopeStep(vs, i, global);
        assert vars[i] == vs[i];
        if vars[i].global == global {
          r := r + [vars[i]];
        }
        i := i + 1;
      }
      assert vs[..count] == vs;
    }

    /** printenc: every entry, in insertion order. */
    method PrintEnv() returns (lines: seq<Var>)
      requires Valid()
      ensures lines == Entries()
    {
      lines := [];
      var i := 0;
      while i < count
        invariant 0 <= i <= count
        invariant lines == vars[..i]
      {
        lines := lines + [vars[i]];
        i := i + 1;
      }
    }

    /** process_command: dispatch on the command's prefix. An `eco` whose
        output would not fit the 256-character buffer is outside the model. */
    method ProcessCommand(command: string) returns (reply: Reply)
      requires Valid()
      requires ParseRequest(command).Echo? ==> |Substitute(Entries(), ParseRequest(command).text)| <= EcoLimit
      modifies this, vars
      ensures Valid() && vars == old(vars)
      ensures Entries() == EntriesAfter(old(Entries()), ParseRequest(command))
      ensures reply == ReplyTo(old(Entries()), ParseRequest(command))
    {
      var req := ParseRequest(command);
      match req
      case PrintEnv =>
        var lines := PrintEnv();
        reply := Environment(lines);
      case Echo(text) =>
        var out := Eco(text);
        reply := Echoed(out);
      case Assign(binding) =>
        if binding.Some? {
          var stored := SetVar(binding.value.0, binding.value.1, false);
          reply := Assigned(stored);
        } else {
          reply := InvalidSet;
        }
      case Export(name) =>
        var trimmed := TrimSpaces(command[7..]);
        var stored := ExportVar(trimmed);
        reply := Exported(stored);
      case ListVars =>
        var locals, globals := ListVars();
        reply := Listing(locals, globals);
      case Unknown(c) =>
        reply := UnknownCommand(c);
    }

    /** eco: the argument with every `$name` at a boundary substituted, as
        built in the 256-character buffer. */
    method Eco(input: string) returns (out: string)
      requires Valid()
      requires |Substitute(Entries(), input)| <= EcoLimit
      ensures out == Substitute(Entries(), input)
    {
      ghost var env := Env(Entries());
      ghost var total := SubstFrom(env, input, 0);
      SubstituteIsSubstFrom(Entries(), input);
      var buffer := new char[EcoLimit + 1];
      var j: nat := 0;
      var i := 0;
      while i < |input|
        invariant 0 <= i <= |input|
        invariant j <= |total|
        invariant buffer[..j] + SubstFrom(env, input, i) == total
      {
        if input[i] == '$' && (i == 0 || input[i - 1] == ' ') {
          j, i := EcoName(buffer, j, input, i, env, total);
        } else {
          j := EcoChar(buffer, j, input, i, env, total);
          i := i + 1;
        }
      }
      out := buffer[..j];
    }

    /** The `$name` branch of `eco`: read the name after the `$` at `i`
        and append its replacement. */
    method EcoName(buffer: array<char>, j: nat, input: string, i: nat,
                   ghost env: map<string, string>, ghost total: string)
      returns (end: nat, next: nat)
      requires Valid() && env == Env(Entries())
      requires buffer.Length == EcoLimit + 1 && |total| <= EcoLimit
      requires i < |input| && input[i] == '$' && AtBoundary(input, i)
      requires j <= |total| && buffer[..j] + SubstFrom(env, input, i) == total
      modifies buffer
      ensures next == NameEnd(input, i)
      ensures end <= |total| && buffer[..end] + SubstFrom(env, input, next) == total
    {
      ghost var before, now := buffer[..j], SubstFrom(env, input, i);
      var name;
      name, next := ReadName(input, i + 1);
      assert next == NameEnd(input, i) && name == input[i + 1..next];
      ghost var after := SubstFrom(env, input, next);
      SubstFromDollar(env, input, i);
      assert |before| + |Replacement(env, name)| + |after| == |total|;
      end := AppendReplacement(buffer, j, name, env);
      EcoStep(before, Replacement(env, name), now, after, total, buffer[..end]);
    }

    /** The `$name` branch of `eco` once the name is read: look it up and
        append its value, or `$` and the name when it is unbound. */
    method AppendReplacement(buffer: array<char>, j: nat, name: string, ghost env: map<string, string>)
      returns (end: nat)
      requires Valid() && env == Env(Entries())
      requires buffer.Length == EcoLimit + 1 && j + |Replacement(env, name)| <= EcoLimit
      modifies buffer
      ensures end == j + |Replacement(env, name)|
      ensures buffer[..end] == old(buffer[..j]) + Replacement(env, name)
    {
      var value := GetVar(name);
      EnvLookup(Entries(), name);
      if value.Some? {
        end := Copy(buffer, j, value.value);
      } else {
        buffer[j] := '$';
        end := j + 1;
        assert buffer[..end] == old(buffer[..j]) + "$";
        end := Copy(buffer, end, name);
        Associate(old(buffer[..j]), "$", name);
      }
    }
  }

  /** Any other character of `eco`'s argument is copied to the buffer. */
  method EcoChar(buffer: array<char>, j: nat, input: string, i: nat,
                 ghost env: map<string, string>, ghost total: string)
    returns (end: nat)
    requires buffer.Length == EcoLimit + 1 && |total| <= EcoLimit
    requires i < |input| && !(input[i] == '$' && AtBoundary(input, i))
    requires j <= |total| && buffer[..j] + SubstFrom(env, input, i) == total
    modifies buffer
    ensures end == j + 1 && end <= |total|
    ensures buffer[..end] + SubstFrom(env, input, i + 1) == total
  {
    ghost var before, now := buffer[..j], SubstFrom(env, input, i);
    SubstFromPlain(env, input, i);
    buffer[j] := input[i];
    end := j + 1;
    assert buffer[..end] == before + [input[i]];
    EcoStep(before, [input[i]], now, SubstFrom(env, input, i + 1), total, buffer[..end]);
  }

  /** One turn of the loop in `eco`: the piece written to the buffer is the
      head of what remained to be produced. */
  lemma EcoStep(before: string, piece: string, now: string, after: string, total: string, written: string)
    requires now == piece + after && before + now == total
    requires written == before + piece
    ensures written + after == total && |written| + |after| == |total|
  {
    assert (before + piece) + after == before + (piece + after);
  }

  /** One more character of a name: a non-space with room left. */
  lemma NameLengthStep(input: string, i: nat, room: nat)
    requires i < |input| && input[i] != ' ' && room > 0
    ensures NameLength(input[i..], room) == 1 + NameLength(input[i + 1..], room - 1)
  {
    assert input[i..][1..] == input[i + 1..];
  }

  /** A name ends at a space, at the end, or when there is no room left. */
  lemma NameLengthStop(input: string, i: nat, room: nat)
    requires i <= |input|
    requires i == |input| || input[i] == ' ' || room == 0
    ensures NameLength(input[i..], room) == 0
  {
  }

  /** The condition `eco` tests before a `$`: at the start, or after a space. */
  predicate AtBoundary(input: string, i: nat)
    requires i <= |input|
  {
    i == 0 || input[i - 1] == ' '
  }

  /** The name loop of `eco`: read from `start` up to a space, the end, or
      MaxName characters. */
  method ReadName(input: string, start: nat) returns (name: string, i: nat)
    requires start <= |input|
    ensures i == start + NameLength(input[start..], MaxName) && name == input[start..i]
  {
    i := start;
    name := [];
    var k := 0;
    while i < |input| && input[i] != ' ' && k < MaxName
      invariant start <= i <= |input| && k == i - start <= MaxName
      invariant name == input[start..i]
      invariant k + NameLength(input[i..], MaxName - k) == NameLength(input[start..], MaxName)
    {
      NameLengthStep(input, i, MaxName - k);
      name := name + [input[i]];
      k := k + 1;
      i := i + 1;
    }
    NameLengthStop(input, i, MaxName - k);
  }

  /** A bounded copy loop of `eco`: append `text` to `buffer[..j]`, never
      past index 254. */
  method Copy(buffer: array<char>, j: nat, text: string) returns (end: nat)
    requires buffer.Length == EcoLimit + 1
    requires j + |text| <= EcoLimit
    modifies buffer
    ensures end == j + |text|
    ensures buffer[..end] == old(buffer[..j]) + text
  {
    end := j;
    var m := 0;
    while m < |text| && end < EcoLimit
      invariant 0 <= m <= |text| && end == j + m
      invariant buffer[..end] == old(buffer[..j]) + text[..m]
    {
      buffer[end] := text[m];
      end := end + 1;
      m := m + 1;
    }
  }
}
