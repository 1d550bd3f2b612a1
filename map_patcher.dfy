/** The patch engine: decode a map save, pick the SMBH blocks whose name
    matches a selector and whose payload is JSON, replace a named property
    everywhere in each such tree, and re-encode the save, refusing to write a
    file in which nothing changed. */
module MapPatcher {
  import opened Wrappers
  import opened Bytes
  import opened Json
  import opened JsonExtractor
  import opened Smbh
  import opened SsfCodec

  // ---------------------------------------------------------------------------
  // Selector normalisation

  /** char.IsWhiteSpace: the separators, tab to carriage return, next line,
      no-break space and the Unicode space characters. */
  predicate IsWhiteSpace(c: char)
  {
    var n := c as int;
    n == 0x20 || (0x09 <= n <= 0x0D) || n == 0x85 || n == 0xA0 || n == 0x1680 ||
    (0x2000 <= n <= 0x200A) || n == 0x2028 || n == 0x2029 || n == 0x202F || n == 0x205F || n == 0x3000
  }

  function TrimStart(s: string): (r: string)
    ensures |r| <= |s|
  {
    if |s| > 0 && IsWhiteSpace(s[0]) then TrimStart(s[1..]) else s
  }

  function TrimEnd(s: string): (r: string)
    ensures |r| <= |s|
  {
    if |s| > 0 && IsWhiteSpace(s[|s| - 1]) then TrimEnd(s[..|s| - 1]) else s
  }

  function Trim(s: string): string
  {
    TrimEnd(TrimStart(s))
  }

  /** ToLowerInvariant on ASCII letters. */
  function LowerChar(c: char): char
  {
    if 'A' <= c <= 'Z' then (c as int + 32) as char else c
  }

  function ToLower(s: string): (r: string)
    ensures |r| == |s|
  {
    seq(|s|, i requires 0 <= i < |s| => LowerChar(s[i]))
  }

  /** Replace("-", "_"). */
  function DashToUnderscore(s: string): (r: string)
    ensures |r| == |s|
  {
    seq(|s|, i requires 0 <= i < |s| => if s[i] == '-' then '_' else s[i])
  }

  function Normalize(s: string): string
  {
    DashToUnderscore(ToLower(Trim(s)))
  }

  /** string.IsNullOrWhiteSpace. */
  predicate Blank(s: string)
  {
    s == [] || (IsWhiteSpace(s[0]) && Blank(s[1..]))
  }

  /** Blank holds exactly of strings made of whitespace only. */
  lemma {:induction false} BlankIff(s: string)
    ensures Blank(s) <==> forall i :: 0 <= i < |s| ==> IsWhiteSpace(s[i])
  {
    if s != [] {
      BlankIff(s[1..]);
      if !IsWhiteSpace(s[0]) {
        assert !IsWhiteSpace(s[0]);
      } else if !Blank(s[1..]) {
        var i :| 0 <= i < |s[1..]| && !IsWhiteSpace(s[1..][i]);
        assert !IsWhiteSpace(s[i + 1]);
      }
    }
  }

  /** Contains with StringComparison.OrdinalIgnoreCase. */
  predicate ContainsIgnoreCase(hay: string, needle: string)
  {
    MatchesFrom(hay, needle, 0)
  }

  /** The ordinal scan for needle in hay, ignoring ASCII case, from index i. */
  predicate MatchesFrom(hay: string, needle: string, i: nat)
    decreases |hay| - i
  {
    i + |needle| <= |hay| &&
    (ToLower(SliceAt(hay, i, |needle|)) == ToLower(needle) || MatchesFrom(hay, needle, i + 1))
  }

  /** The scan finds needle exactly when some slice from i on equals it up
      to case. */
  lemma {:induction false} MatchesFromIff(hay: string, needle: string, i: nat)
    ensures MatchesFrom(hay, needle, i) <==>
      exists j :: i <= j <= |hay| - |needle| && ToLower(SliceAt(hay, j, |needle|)) == ToLower(needle)
    decreases |hay| - i
  {
    if i + |needle| <= |hay| {
      MatchesFromIff(hay, needle, i + 1);
      if exists j :: i <= j <= |hay| - |needle| && ToLower(SliceAt(hay, j, |needle|)) == ToLower(needle) {
        var j :| i <= j <= |hay| - |needle| && ToLower(SliceAt(hay, j, |needle|)) == ToLower(needle);
        if j > i {
          assert i + 1 <= j;
        }
      }
    }
  }

  /** The n characters of s from i. */
  function SliceAt(s: string, i: int, n: int): string
    requires 0 <= i && 0 <= n && i + n <= |s|
  {
    s[i..i + n]
  }

  predicate IsMatchSelector(blockName: string, selectorNorm: string)
  {
    !Blank(selectorNorm) && ContainsIgnoreCase(Normalize(blockName), selectorNorm)
  }

  /** TrimStart drops exactly the leading whitespace: a suffix of s, every
      dropped character whitespace, and the first kept one not. */
  lemma {:induction false} TrimStartShape(s: string)
    ensures |TrimStart(s)| > 0 ==> !IsWhiteSpace(TrimStart(s)[0])
    ensures TrimStart(s) == s[|s| - |TrimStart(s)|..]
    ensures forall i :: 0 <= i < |s| - |TrimStart(s)| ==> IsWhiteSpace(s[i])
  {
    if |s| > 0 && IsWhiteSpace(s[0]) {
      TrimStartShape(s[1..]);
      forall i | 1 <= i < |s| - |TrimStart(s)| ensures IsWhiteSpace(s[i]) {
        assert s[i] == s[1..][i - 1];
      }
    }
  }

  /** TrimEnd drops exactly the trailing whitespace: a prefix of s, every
      dropped character whitespace, and the last kept one not. */
  lemma {:induction false} TrimEndShape(s: string)
    ensures |TrimEnd(s)| > 0 ==> !IsWhiteSpace(TrimEnd(s)[|TrimEnd(s)| - 1])
    ensures TrimEnd(s) == s[..|TrimEnd(s)|]
    ensures forall i :: |TrimEnd(s)| <= i < |s| ==> IsWhiteSpace(s[i])
    ensures |s| > 0 && !IsWhiteSpace(s[0]) ==> |TrimEnd(s)| > 0
  {
    if |s| > 0 && IsWhiteSpace(s[|s| - 1]) {
      TrimEndShape(s[..|s| - 1]);
      forall i | |TrimEnd(s)| <= i < |s| - 1 ensures IsWhiteSpace(s[i]) {
        assert s[i] == s[..|s| - 1][i];
      }
    }
  }

  /** A trimmed string is empty or has no whitespace at either end. */
  lemma TrimEnds(s: string)
    ensures |Trim(s)| > 0 ==> !IsWhiteSpace(Trim(s)[0]) && !IsWhiteSpace(Trim(s)[|Trim(s)| - 1])
  {
    var t := TrimStart(s);
    TrimStartShape(s);
    TrimEndShape(t);
    if |Trim(s)| > 0 {
      assert Trim(s)[0] == t[0];
    }
  }

  lemma TrimNoOp(s: string)
    requires |s| > 0 ==> !IsWhiteSpace(s[0]) && !IsWhiteSpace(s[|s| - 1])
    ensures Trim(s) == s
  {
  }

  /** Normalising is idempotent. */
  lemma NormalizeIdempotent(s: string)
    ensures Normalize(Normalize(s)) == Normalize(s)
  {
    var t := Normalize(s);
    TrimEnds(s);
    assert Trim(t) == t by {
      TrimNoOp(t);
    }
    assert ToLower(t) == t;
    assert DashToUnderscore(t) == t;
  }

  /** Normalize yields no upper-case ASCII letter and no dash. */
  predicate Folded(s: string)
  {
    forall k :: 0 <= k < |s| ==> !('A' <= s[k] <= 'Z') && s[k] != '-'
  }

  lemma NormalizeFolded(s: string)
    ensures Folded(Normalize(s))
    ensures |Normalize(s)| > 0 ==> !IsWhiteSpace(Normalize(s)[0])
  {
    TrimEnds(s);
  }

  lemma ToLowerFolded(s: string)
    requires Folded(s)
    ensures ToLower(s) == s
  {
  }

  /** A normalised selector is blank exactly when it is empty; the match is
      then a plain substring test on the normalised name. */
  lemma MatchSelectorIff(blockName: string, selector: string)
    ensures var sn := Normalize(selector);
      var bn := Normalize(blockName);
      IsMatchSelector(blockName, sn) <==>
        |sn| > 0 && exists i :: 0 <= i <= |bn| - |sn| && SliceAt(bn, i, |sn|) == sn
  {
    var sn := Normalize(selector);
    var bn := Normalize(blockName);
    NormalizeFolded(selector);
    NormalizeFolded(blockName);
    ToLowerFolded(sn);
    MatchesFromIff(bn, sn, 0);
    assert Blank(sn) <==> |sn| == 0;
    forall i | 0 <= i <= |bn| - |sn|
      ensures ToLower(SliceAt(bn, i, |sn|)) == SliceAt(bn, i, |sn|)
    {
      ToLowerFolded(SliceAt(bn, i, |sn|));
    }
  }

  /** On text that is already trimmed and lower-case, Normalize only maps
      dashes to underscores. */
  lemma NormalizePlain(s: string)
    requires |s| > 0 ==> !IsWhiteSpace(s[0]) && !IsWhiteSpace(s[|s| - 1])
    requires forall k :: 0 <= k < |s| ==> !('A' <= s[k] <= 'Z')
    ensures Normalize(s) == DashToUnderscore(s)
  {
    TrimNoOp(s);
    assert ToLower(s) == s;
  }

  lemma DashSlice(s: string, a: int, b: int)
    requires 0 <= a <= b <= |s|
    ensures DashToUnderscore(s)[a..b] == DashToUnderscore(s[a..b])
  {
  }

  /** The selector the tool's own patch passes matches the infrastructure
      block it is meant for. */
  lemma RequestSystemMatches()
    ensures IsMatchSelector("infrastructure.request-system", Normalize("request-system"))
  {
    var name := "infrastructure.request-system";
    var selector := "request-system";
    assert name[15..29] == selector;
    NormalizePlain(name);
    NormalizePlain(selector);
    DashSlice(name, 15, 29);
    var sn := Normalize(selector);
    assert |sn| == 14 && SliceAt(Normalize(name), 15, |sn|) == sn;
    MatchSelectorIff(name, selector);
  }

  // ---------------------------------------------------------------------------
  // ReplacePropertyRecursive

  /** The walk: in an object holding propName that member's value becomes
      newValue; the walk then descends into every member value, the new one
      included, and into every array element. The count is one per object
      holding propName. The walk terminates unless newValue itself holds
      propName and there is at least one replacement. */
  function Walk(node: Json, propName: string, newValue: Json): (r: (Json, nat))
    requires !HasProp(newValue, propName) || !HasProp(node, propName)
    decreases if HasProp(node, propName) then 1 else 0, node, 1
  {
    match node
    case Obj(ms) => WalkObject(ms, propName, newValue)
    case Arr(es) => WalkArray(es, propName, newValue)
    case _ => (node, 0)
  }

  /** The walk through one object: replace, then descend into every member. */
  function WalkObject(ms: seq<(string, Json)>, propName: string, newValue: Json): (r: (Json, nat))
    requires !HasProp(newValue, propName) || !HasProp(Obj(ms), propName)
    decreases if HasProp(Obj(ms), propName) then 1 else 0, Obj(ms), 0
  {
    var rs := seq(|ms|, i requires 0 <= i < |ms| =>
                Walk(if ms[i].0 == propName then newValue else ms[i].1, propName, newValue));
    (Obj(seq(|ms|, i requires 0 <= i < |ms| => (ms[i].0, rs[i].0))),
     (if HasKey(ms, propName) then 1 else 0) + Sum(seq(|rs|, i requires 0 <= i < |rs| => rs[i].1)))
  }

  /** The walk through one array: descend into every element. */
  function WalkArray(es: seq<Json>, propName: string, newValue: Json): (r: (Json, nat))
    requires !HasProp(newValue, propName) || !HasProp(Arr(es), propName)
    decreases if HasProp(Arr(es), propName) then 1 else 0, Arr(es), 0
  {
    var rs := seq(|es|, i requires 0 <= i < |es| => Walk(es[i], propName, newValue));
    (Arr(seq(|es|, i requires 0 <= i < |es| => rs[i].0)),
     Sum(seq(|rs|, i requires 0 <= i < |rs| => rs[i].1)))
  }

  /** The source recursion with a bound on its depth: None once the bound is
      used up, as a call stack runs out. Unlike Walk it has no precondition:
      it descends into every inserted copy of newValue whatever that holds. */
  function WalkFuel(node: Json, propName: string, newValue: Json, fuel: nat): Option<(Json, nat)>
    decreases fuel, 1
  {
    if fuel == 0 then None
    else
      match node
      case Obj(ms) => WalkFuelObject(ms, propName, newValue, fuel)
      case Arr(es) => WalkFuelArray(es, propName, newValue, fuel)
      case _ => Some((node, 0))
  }

  /** One object at depth bound fuel: its members get fuel - 1. */
  function WalkFuelObject(ms: seq<(string, Json)>, propName: string, newValue: Json, fuel: nat): Option<(Json, nat)>
    requires fuel > 0
    decreases fuel, 0
  {
    var rs := seq(|ms|, i requires 0 <= i < |ms| =>
                WalkFuel(if ms[i].0 == propName then newValue else ms[i].1, propName, newValue, fuel - 1));
    match Collect(rs)
    case None => None
    case Some(ws) =>
      Some((Obj(seq(|ms|, i requires 0 <= i < |ms| => (ms[i].0, ws[i].0))),
            (if HasKey(ms, propName) then 1 else 0) + Sum(seq(|ws|, i requires 0 <= i < |ws| => ws[i].1))))
  }

  /** One array at depth bound fuel: its elements get fuel - 1. */
  function WalkFuelArray(es: seq<Json>, propName: string, newValue: Json, fuel: nat): Option<(Json, nat)>
    requires fuel > 0
    decreases fuel, 0
  {
    var rs := seq(|es|, i requires 0 <= i < |es| => WalkFuel(es[i], propName, newValue, fuel - 1));
    match Collect(rs)
    case None => None
    case Some(ws) =>
      Some((Arr(seq(|es|, i requires 0 <= i < |es| => ws[i].0)),
            Sum(seq(|ws|, i requires 0 <= i < |ws| => ws[i].1))))
  }

  /** The children's results, when every child finished. */
  function Collect(rs: seq<Option<(Json, nat)>>): (r: Option<seq<(Json, nat)>>)
    ensures r.None? <==> exists i :: 0 <= i < |rs| && rs[i].None?
    ensures r.Some? ==> |r.value| == |rs| && forall i :: 0 <= i < |rs| ==> rs[i] == Some(r.value[i])
  {
    if forall i :: 0 <= i < |rs| ==> rs[i].Some? then Some(seq(|rs|, i requires 0 <= i < |rs| => rs[i].value))
    else None
  }

  function MaxOf(ns: seq<nat>): (m: nat)
    ensures forall i :: 0 <= i < |ns| ==> ns[i] <= m
  {
    if ns == [] then 0
    else
      var t := MaxOf(ns[1..]);
      assert forall i :: 1 <= i < |ns| ==> ns[i] == ns[1..][i - 1];
      if ns[0] > t then ns[0] else t
  }

  /** The nesting depth of a tree: 0 for a scalar. */
  function Height(j: Json): nat
    decreases j
  {
    match j
    case Obj(ms) => 1 + MaxOf(seq(|ms|, i requires 0 <= i < |ms| => Height(ms[i].1)))
    case Arr(es) => 1 + MaxOf(seq(|es|, i requires 0 <= i < |es| => Height(es[i])))
    case _ => 0
  }

  /** ReplacePropertyRecursive: the patched tree and the replacement count, or
      the stack overflow of a walk that never ends. It fails exactly when the
      source recursion has no depth bound within which it finishes, and
      otherwise agrees with that recursion at depth Height(node) +
      Height(newValue) + 1. */
  function ReplacePropertyRecursive(node: Json, propName: string, newValue: Json): (r: Result<(Json, nat)>)
    ensures r.Failure? <==> HasProp(newValue, propName) && HasProp(node, propName)
    ensures r.Failure? <==> forall fuel: nat :: WalkFuel(node, propName, newValue, fuel).None?
    ensures r.Failure? ==> r.error == StackOverflow
    ensures r.Success? ==> WalkFuel(node, propName, newValue, Height(node) + Height(newValue) + 1) == Some(r.value)
  {
    if HasProp(newValue, propName) && HasProp(node, propName) then
      WalkFuelNeverEnds(node, propName, newValue);
      Failure(StackOverflow)
    else
      WalkFuelEnds(node, propName, newValue);
      Success(Walk(node, propName, newValue))
  }

  /** When newValue and the tree both hold propName, no depth bound is
      enough: every replacement inserts a copy holding propName again. */
  lemma WalkFuelNeverEnds(node: Json, propName: string, newValue: Json)
    requires HasProp(newValue, propName) && HasProp(node, propName)
    ensures forall fuel: nat :: WalkFuel(node, propName, newValue, fuel).None?
  {
    forall fuel: nat ensures WalkFuel(node, propName, newValue, fuel).None? {
      WalkFuelDiverges(node, propName, newValue, fuel);
    }
  }

  lemma {:induction false} WalkFuelDiverges(node: Json, propName: string, newValue: Json, fuel: nat)
    requires HasProp(newValue, propName) && HasProp(node, propName)
    ensures WalkFuel(node, propName, newValue, fuel).None?
    decreases fuel, 1
  {
    if fuel > 0 {
      match node
      case Obj(ms) => WalkFuelObjectDiverges(ms, propName, newValue, fuel);
      case Arr(es) => WalkFuelArrayDiverges(es, propName, newValue, fuel);
    }
  }

  lemma {:induction false} WalkFuelObjectDiverges(ms: seq<(string, Json)>, propName: string, newValue: Json, fuel: nat)
    requires HasProp(newValue, propName) && HasProp(Obj(ms), propName) && fuel > 0
    ensures WalkFuelObject(ms, propName, newValue, fuel).None?
    decreases fuel, 0
  {
    var rs := seq(|ms|, i requires 0 <= i < |ms| =>
                WalkFuel(if ms[i].0 == propName then newValue else ms[i].1, propName, newValue, fuel - 1));
    var i :| 0 <= i < |ms| && (ms[i].0 == propName || HasProp(ms[i].1, propName));
    WalkFuelDiverges(if ms[i].0 == propName then newValue else ms[i].1, propName, newValue, fuel - 1);
    assert rs[i].None?;
  }

  lemma {:induction false} WalkFuelArrayDiverges(es: seq<Json>, propName: string, newValue: Json, fuel: nat)
    requires HasProp(newValue, propName) && HasProp(Arr(es), propName) && fuel > 0
    ensures WalkFuelArray(es, propName, newValue, fuel).None?
    decreases fuel, 0
  {
    var rs := seq(|es|, i requires 0 <= i < |es| => WalkFuel(es[i], propName, newValue, fuel - 1));
    var i :| 0 <= i < |es| && HasProp(es[i], propName);
    WalkFuelDiverges(es[i], propName, newValue, fuel - 1);
    assert rs[i].None?;
  }

  /** Otherwise the source recursion finishes within depth Height(node) +
      Height(newValue) + 1, with Walk's result. */
  lemma WalkFuelEnds(node: Json, propName: string, newValue: Json)
    requires !HasProp(newValue, propName) || !HasProp(node, propName)
    ensures WalkFuel(node, propName, newValue, Height(node) + Height(newValue) + 1) == Some(Walk(node, propName, newValue))
  {
    var fuel := Height(node) + Height(newValue) + 1;
    if HasProp(node, propName) {
      WalkFuelAgrees(node, propName, newValue, fuel);
    } else {
      WalkFuelIdentity(node, propName, newValue, fuel);
      WalkIdentity(node, propName, newValue);
    }
  }

  /** Without propName in the tree, enough depth gives the tree back with
      count 0. */
  lemma {:induction false} WalkFuelIdentity(node: Json, propName: string, newValue: Json, fuel: nat)
    requires !HasProp(node, propName) && fuel > Height(node)
    ensures WalkFuel(node, propName, newValue, fuel) == Some((node, 0))
    decreases node
  {
    WalkFuelAgreesIdentity(node, propName, newValue, fuel);
    WalkIdentity(node, propName, newValue);
  }

  /** Without propName in the tree, enough depth gives Walk's result (which
      WalkIdentity shows to be the tree itself). */
  lemma {:induction false} WalkFuelAgreesIdentity(node: Json, propName: string, newValue: Json, fuel: nat)
    requires !HasProp(node, propName) && fuel > Height(node)
    ensures WalkFuel(node, propName, newValue, fuel) == Some(Walk(node, propName, newValue))
    decreases node, 1
  {
    match node
    case Obj(ms) => WalkFuelObjectIdentity(ms, propName, newValue, fuel);
    case Arr(es) => WalkFuelArrayIdentity(es, propName, newValue, fuel);
    case _ =>
  }

  lemma {:induction false} WalkFuelObjectIdentity(ms: seq<(string, Json)>, propName: string, newValue: Json, fuel: nat)
    requires !HasProp(Obj(ms), propName) && fuel > Height(Obj(ms))
    ensures WalkFuelObject(ms, propName, newValue, fuel) == Some(WalkObject(ms, propName, newValue))
    decreases Obj(ms), 0
  {
    var ws := seq(|ms|, i requires 0 <= i < |ms| =>
                Walk(if ms[i].0 == propName then newValue else ms[i].1, propName, newValue));
    var rs := seq(|ms|, i requires 0 <= i < |ms| =>
                WalkFuel(if ms[i].0 == propName then newValue else ms[i].1, propName, newValue, fuel - 1));
    forall i | 0 <= i < |ms| ensures rs[i] == Some(ws[i]) {
      HeightObjectMember(ms, i);
      WalkFuelAgreesIdentity(ms[i].1, propName, newValue, fuel - 1);
    }
    CollectAll(rs, ws);
  }

  lemma {:induction false} WalkFuelArrayIdentity(es: seq<Json>, propName: string, newValue: Json, fuel: nat)
    requires !HasProp(Arr(es), propName) && fuel > Height(Arr(es))
    ensures WalkFuelArray(es, propName, newValue, fuel) == Some(WalkArray(es, propName, newValue))
    decreases Arr(es), 0
  {
    var ws := seq(|es|, i requires 0 <= i < |es| => Walk(es[i], propName, newValue));
    var rs := seq(|es|, i requires 0 <= i < |es| => WalkFuel(es[i], propName, newValue, fuel - 1));
    forall i | 0 <= i < |es| ensures rs[i] == Some(ws[i]) {
      HeightArrayElement(es, i);
      WalkFuelAgreesIdentity(es[i], propName, newValue, fuel - 1);
    }
    CollectAll(rs, ws);
  }

  lemma HeightObjectMember(ms: seq<(string, Json)>, i: int)
    requires 0 <= i < |ms|
    ensures Height(ms[i].1) < Height(Obj(ms))
  {
    var hs := seq(|ms|, i requires 0 <= i < |ms| => Height(ms[i].1));
    assert hs[i] <= MaxOf(hs);
  }

  lemma HeightArrayElement(es: seq<Json>, i: int)
    requires 0 <= i < |es|
    ensures Height(es[i]) < Height(Arr(es))
  {
    var hs := seq(|es|, i requires 0 <= i < |es| => Height(es[i]));
    assert hs[i] <= MaxOf(hs);
  }

  lemma CollectAll(rs: seq<Option<(Json, nat)>>, ws: seq<(Json, nat)>)
    requires |rs| == |ws| && forall i :: 0 <= i < |rs| ==> rs[i] == Some(ws[i])
    ensures Collect(rs) == Some(ws)
  {
    assert Collect(rs).Some?;
    assert Collect(rs).value == ws;
  }

  /** With newValue free of propName, enough depth gives Walk's result. */
  lemma {:induction false} WalkFuelAgrees(node: Json, propName: string, newValue: Json, fuel: nat)
    requires !HasProp(newValue, propName) && fuel > Height(node) + Height(newValue)
    ensures WalkFuel(node, propName, newValue, fuel) == Some(Walk(node, propName, newValue))
    decreases node, 1
  {
    match node
    case Obj(ms) => WalkFuelObjectAgrees(ms, propName, newValue, fuel);
    case Arr(es) => WalkFuelArrayAgrees(es, propName, newValue, fuel);
    case _ =>
  }

  lemma {:induction false} WalkFuelObjectAgrees(ms: seq<(string, Json)>, propName: string, newValue: Json, fuel: nat)
    requires !HasProp(newValue, propName) && fuel > Height(Obj(ms)) + Height(newValue)
    ensures WalkFuelObject(ms, propName, newValue, fuel) == Some(WalkObject(ms, propName, newValue))
    decreases Obj(ms), 0
  {
    var ws := seq(|ms|, i requires 0 <= i < |ms| =>
                Walk(if ms[i].0 == propName then newValue else ms[i].1, propName, newValue));
    var rs := seq(|ms|, i requires 0 <= i < |ms| =>
                WalkFuel(if ms[i].0 == propName then newValue else ms[i].1, propName, newValue, fuel - 1));
    forall i | 0 <= i < |ms| ensures rs[i] == Some(ws[i]) {
      HeightObjectMember(ms, i);
      if ms[i].0 == propName {
        WalkFuelAgreesIdentity(newValue, propName, newValue, fuel - 1);
      } else {
        WalkFuelAgrees(ms[i].1, propName, newValue, fuel - 1);
      }
    }
    CollectAll(rs, ws);
  }

  lemma {:induction false} WalkFuelArrayAgrees(es: seq<Json>, propName: string, newValue: Json, fuel: nat)
    requires !HasProp(newValue, propName) && fuel > Height(Arr(es)) + Height(newValue)
    ensures WalkFuelArray(es, propName, newValue, fuel) == Some(WalkArray(es, propName, newValue))
    decreases Arr(es), 0
  {
    var ws := seq(|es|, i requires 0 <= i < |es| => Walk(es[i], propName, newValue));
    var rs := seq(|es|, i requires 0 <= i < |es| => WalkFuel(es[i], propName, newValue, fuel - 1));
    forall i | 0 <= i < |es| ensures rs[i] == Some(ws[i]) {
      HeightArrayElement(es, i);
      WalkFuelAgrees(es[i], propName, newValue, fuel - 1);
    }
    CollectAll(rs, ws);
  }

  /** b is a with the value of every propName member that the walk reaches
      set to newValue; keys, order, array elements and everything else are as
      in a. */
  predicate Patched(a: Json, b: Json, propName: string, newValue: Json)
    decreases a
  {
    match a
    case Obj(ms) =>
      b.Obj? && |b.members| == |ms| &&
      forall i :: 0 <= i < |ms| ==>
        b.members[i].0 == ms[i].0 &&
        (if ms[i].0 == propName then b.members[i].1 == newValue else Patched(ms[i].1, b.members[i].1, propName, newValue))
    case Arr(es) =>
      b.Arr? && |b.elems| == |es| && forall i :: 0 <= i < |es| ==> Patched(es[i], b.elems[i], propName, newValue)
    case _ => b == a
  }

  /** A tree without propName comes back unchanged with count 0. */
  lemma {:induction false} WalkIdentity(node: Json, propName: string, newValue: Json)
    requires !HasProp(node, propName)
    ensures Walk(node, propName, newValue) == (node, 0)
    decreases node
  {
    match node
    case Obj(ms) =>
      var rs := seq(|ms|, i requires 0 <= i < |ms| =>
                  Walk(if ms[i].0 == propName then newValue else ms[i].1, propName, newValue));
      forall i | 0 <= i < |ms| ensures rs[i] == (ms[i].1, 0) {
        WalkIdentity(ms[i].1, propName, newValue);
      }
      assert seq(|ms|, i requires 0 <= i < |ms| => (ms[i].0, rs[i].0)) == ms;
      SumZero(seq(|rs|, i requires 0 <= i < |rs| => rs[i].1));
    case Arr(es) =>
      var rs := seq(|es|, i requires 0 <= i < |es| => Walk(es[i], propName, newValue));
      forall i | 0 <= i < |es| ensures rs[i] == (es[i], 0) {
        WalkIdentity(es[i], propName, newValue);
      }
      assert seq(|es|, i requires 0 <= i < |es| => rs[i].0) == es;
      SumZero(seq(|rs|, i requires 0 <= i < |rs| => rs[i].1));
    case _ =>
  }

  lemma {:induction false} SumZero(ns: seq<nat>)
    requires forall i :: 0 <= i < |ns| ==> ns[i] == 0
    ensures Sum(ns) == 0
  {
    if ns != [] {
      SumZero(ns[1..]);
    }
  }

  /** The walk sets every reachable propName member to newValue and leaves
      everything else in place. */
  lemma {:induction false} WalkPatches(node: Json, propName: string, newValue: Json)
    requires !HasProp(newValue, propName)
    ensures Patched(node, Walk(node, propName, newValue).0, propName, newValue)
    decreases node
  {
    match node
    case Obj(ms) =>
      forall i | 0 <= i < |ms|
        ensures var w := Walk(if ms[i].0 == propName then newValue else ms[i].1, propName, newValue).0;
          if ms[i].0 == propName then w == newValue else Patched(ms[i].1, w, propName, newValue)
      {
        if ms[i].0 == propName {
          WalkIdentity(newValue, propName, newValue);
        } else {
          WalkPatches(ms[i].1, propName, newValue);
        }
      }
    case Arr(es) =>
      forall i | 0 <= i < |es| ensures Patched(es[i], Walk(es[i], propName, newValue).0, propName, newValue) {
        WalkPatches(es[i], propName, newValue);
      }
    case _ =>
  }

  /** The count is the number of objects holding propName in the patched
      tree: one per replacement, none inside the inserted copies. */
  lemma {:induction false} WalkCount(node: Json, propName: string, newValue: Json)
    requires !HasProp(newValue, propName)
    ensures Walk(node, propName, newValue).1 == KeyedObjects(Walk(node, propName, newValue).0, propName)
    decreases node
  {
    match node
    case Obj(ms) =>
      var rs := seq(|ms|, i requires 0 <= i < |ms| =>
                  Walk(if ms[i].0 == propName then newValue else ms[i].1, propName, newValue));
      var ms' := seq(|ms|, i requires 0 <= i < |ms| => (ms[i].0, rs[i].0));
      forall i | 0 <= i < |ms| ensures rs[i].1 == KeyedObjects(ms'[i].1, propName) {
        if ms[i].0 == propName {
          WalkIdentity(newValue, propName, newValue);
          KeyedObjectsPositive(newValue, propName);
        } else {
          WalkCount(ms[i].1, propName, newValue);
        }
      }
      assert HasKey(ms', propName) == HasKey(ms, propName) by {
        assert forall i :: 0 <= i < |ms| ==> ms'[i].0 == ms[i].0;
      }
      assert seq(|rs|, i requires 0 <= i < |rs| => rs[i].1)
          == seq(|ms'|, i requires 0 <= i < |ms'| => KeyedObjects(ms'[i].1, propName));
    case Arr(es) =>
      var rs := seq(|es|, i requires 0 <= i < |es| => Walk(es[i], propName, newValue));
      var es' := seq(|es|, i requires 0 <= i < |es| => rs[i].0);
      forall i | 0 <= i < |es| ensures rs[i].1 == KeyedObjects(es'[i], propName) {
        WalkCount(es[i], propName, newValue);
      }
      assert seq(|rs|, i requires 0 <= i < |rs| => rs[i].1)
          == seq(|es'|, i requires 0 <= i < |es'| => KeyedObjects(es'[i], propName));
    case _ =>
  }

  /** Replacing again in the patched tree changes nothing and counts the same
      replacements. */
  lemma {:induction false} WalkIdempotent(node: Json, propName: string, newValue: Json)
    requires !HasProp(newValue, propName)
    ensures var (t, n) := Walk(node, propName, newValue);
      Walk(t, propName, newValue) == (t, n)
    decreases node
  {
    match node
    case Obj(ms) =>
      var rs := seq(|ms|, i requires 0 <= i < |ms| =>
                  Walk(if ms[i].0 == propName then newValue else ms[i].1, propName, newValue));
      var ms' := seq(|ms|, i requires 0 <= i < |ms| => (ms[i].0, rs[i].0));
      var rs' := seq(|ms'|, i requires 0 <= i < |ms'| =>
                  Walk(if ms'[i].0 == propName then newValue else ms'[i].1, propName, newValue));
      forall i | 0 <= i < |ms| ensures rs'[i] == rs[i] {
        if ms[i].0 == propName {
          WalkIdentity(newValue, propName, newValue);
        } else {
          WalkIdempotent(ms[i].1, propName, newValue);
        }
      }
      assert rs' == rs;
      assert HasKey(ms', propName) == HasKey(ms, propName) by {
        assert forall i :: 0 <= i < |ms| ==> ms'[i].0 == ms[i].0;
      }
      assert seq(|ms'|, i requires 0 <= i < |ms'| => (ms'[i].0, rs'[i].0)) == ms';
    case Arr(es) =>
      var rs := seq(|es|, i requires 0 <= i < |es| => Walk(es[i], propName, newValue));
      var es' := seq(|es|, i requires 0 <= i < |es| => rs[i].0);
      var rs' := seq(|es'|, i requires 0 <= i < |es'| => Walk(es'[i], propName, newValue));
      forall i | 0 <= i < |es| ensures rs'[i] == rs[i] {
        WalkIdempotent(es[i], propName, newValue);
      }
      assert rs' == rs;
      assert seq(|es'|, i requires 0 <= i < |es'| => rs'[i].0) == es';
    case _ =>
  }

  /** What the successful replacement promises: the tree is patched, the
      count is positive exactly when the tree held propName, the count is the
      number of objects holding it afterwards, and a second replacement is a
      no-op with the same count. */
  lemma ReplaceOutcome(node: Json, propName: string, newValue: Json)
    requires !HasProp(newValue, propName)
    ensures ReplacePropertyRecursive(node, propName, newValue).Success?
    ensures var (t, n) := ReplacePropertyRecursive(node, propName, newValue).value;
      Patched(node, t, propName, newValue) &&
      n == KeyedObjects(t, propName) &&
      (n > 0 <==> HasProp(node, propName)) &&
      ReplacePropertyRecursive(t, propName, newValue) == Success((t, n))
  {
    var (t, n) := Walk(node, propName, newValue);
    WalkPatches(node, propName, newValue);
    WalkCount(node, propName, newValue);
    WalkIdempotent(node, propName, newValue);
    KeyedObjectsPositive(t, propName);
    if !HasProp(node, propName) {
      WalkIdentity(node, propName, newValue);
    } else {
      PatchedKeepsProp(node, t, propName, newValue);
    }
  }

  /** Patching keeps every object that held propName. */
  lemma {:induction false} PatchedKeepsProp(a: Json, b: Json, propName: string, newValue: Json)
    requires Patched(a, b, propName, newValue) && HasProp(a, propName)
    ensures HasProp(b, propName)
    decreases a
  {
    match a
    case Obj(ms) =>
      if HasKey(ms, propName) {
        var i :| 0 <= i < |ms| && ms[i].0 == propName;
        assert b.members[i].0 == propName;
      } else {
        var i :| 0 <= i < |ms| && HasProp(ms[i].1, propName);
        PatchedKeepsProp(ms[i].1, b.members[i].1, propName, newValue);
      }
    case Arr(es) =>
      var i :| 0 <= i < |es| && HasProp(es[i], propName);
      PatchedKeepsProp(es[i], b.elems[i], propName, newValue);
  }

  // ---------------------------------------------------------------------------
  // The block loop of PatchJsonProperty

  /** One block through the loop: the patched block and its replacement
      count. A block that does not match, does not look like JSON, does not
      parse, is JSON null or has nothing to replace passes through as it is. */
  function PatchBlock(b: Block, selectorNorm: string, propName: string, newValue: Json, lib: JsonLib)
    : (r: Result<(Block, nat)>)
    ensures r.Success? ==> r.value.0.name == b.name && r.value.0.nameBytes == b.nameBytes
    ensures r.Success? ==> (r.value.1 == 0 ==> r.value.0 == b)
    ensures !IsMatchSelector(b.name, selectorNorm) || !LooksLike(b.payloadBytes) ==> r == Success((b, 0))
    ensures lib.parse(b.payloadBytes).None? || lib.parse(b.payloadBytes) == Some(Null) ==> r == Success((b, 0))
    ensures r.Failure? <==>
      IsMatchSelector(b.name, selectorNorm) && LooksLike(b.payloadBytes) &&
      lib.parse(b.payloadBytes).Some? && lib.parse(b.payloadBytes) != Some(Null) &&
      HasProp(newValue, propName) && HasProp(lib.parse(b.payloadBytes).value, propName)
    ensures r.Success? && r.value.1 > 0 ==>
      lib.parse(b.payloadBytes).Some? &&
      var t := ReplacePropertyRecursive(lib.parse(b.payloadBytes).value, propName, newValue);
      t.Success? && r.value.0.payloadBytes == lib.serialize(t.value.0) && r.value.1 == t.value.1
    ensures IsMatchSelector(b.name, selectorNorm) && LooksLike(b.payloadBytes) &&
            lib.parse(b.payloadBytes).Some? && lib.parse(b.payloadBytes) != Some(Null) && r.Success? ==>
      var t := ReplacePropertyRecursive(lib.parse(b.payloadBytes).value, propName, newValue);
      t.Success? && r.value.1 == t.value.1
  {
    if !IsMatchSelector(b.name, selectorNorm) || !LooksLike(b.payloadBytes) then Success((b, 0))
    else
      match lib.parse(b.payloadBytes)
      case None => Success((b, 0))
      case Some(root) =>
        if root == Null then Success((b, 0))
        else
          match ReplacePropertyRecursive(root, propName, newValue)
          case Failure(e) => Failure(e)
          case Success((t, n)) =>
            if n > 0 then Success((Block(b.name, b.nameBytes, lib.serialize(t)), n)) else Success((b, 0))
  }

  /** What the loop body makes of each block, in order. */
  function Steps(blocks: seq<Block>, selectorNorm: string, propName: string, newValue: Json, lib: JsonLib)
    : (steps: seq<Result<(Block, nat)>>)
    ensures |steps| == |blocks|
    ensures forall k :: 0 <= k < |blocks| ==> steps[k] == PatchBlock(blocks[k], selectorNorm, propName, newValue, lib)
  {
    seq(|blocks|, k requires 0 <= k < |blocks| => PatchBlock(blocks[k], selectorNorm, propName, newValue, lib))
  }

  /** The loop over the blocks: the new block list, the number of blocks
      patched and the total number of replacements. */
  function PatchAll(blocks: seq<Block>, selectorNorm: string, propName: string, newValue: Json, lib: JsonLib)
    : Result<(seq<Block>, nat, nat)>
  {
    Fold(Steps(blocks, selectorNorm, propName, newValue, lib))
  }

  /** The loop state after a sequence of steps, the first failure stopping
      the loop. */
  function Fold(steps: seq<Result<(Block, nat)>>): Result<(seq<Block>, nat, nat)>
  {
    if steps == [] then Success(([], 0, 0))
    else Extend(Fold(steps[..|steps| - 1]), steps[|steps| - 1])
  }

  /** The loop state after one more block: the block appended, the counters
      advanced; the first failure stops the loop. */
  function Extend(acc: Result<(seq<Block>, nat, nat)>, step: Result<(Block, nat)>): Result<(seq<Block>, nat, nat)>
  {
    match acc
    case Failure(e) => Failure(e)
    case Success(a) =>
      match step
      case Failure(e) => Failure(e)
      case Success(st) => Success((a.0 + [st.0], a.1 + (if st.1 > 0 then 1 else 0), a.2 + st.1))
  }

  /** A successful step appends its block and advances the counters. */
  lemma ExtendSuccess(acc: (seq<Block>, nat, nat), st: (Block, nat))
    ensures Extend(Success(acc), Success(st)) ==
            Success((acc.0 + [st.0], acc.1 + (if st.1 > 0 then 1 else 0), acc.2 + st.1))
  {
  }

  /** Folding one more step extends the loop state by that step. */
  lemma FoldSnoc(steps: seq<Result<(Block, nat)>>, k: int)
    requires 0 <= k < |steps|
    ensures Fold(steps[..k + 1]) == Extend(Fold(steps[..k]), steps[k])
  {
    assert steps[..k + 1][..k] == steps[..k];
  }

  /** Once a prefix of the steps fails, the whole loop fails the same way. */
  lemma {:induction false} FoldFailed(steps: seq<Result<(Block, nat)>>, k: int)
    requires 0 <= k <= |steps|
    requires Fold(steps[..k]).Failure?
    ensures Fold(steps) == Fold(steps[..k])
    decreases |steps|
  {
    if k < |steps| {
      var init := steps[..|steps| - 1];
      assert init[..k] == steps[..k];
      FoldFailed(init, k);
    } else {
      assert steps[..k] == steps;
    }
  }

  /** The replacement count of each step, 0 for a failed one. */
  function Counts(steps: seq<Result<(Block, nat)>>): (ns: seq<nat>)
    ensures |ns| == |steps|
  {
    seq(|steps|, k requires 0 <= k < |steps| => if steps[k].Success? then steps[k].value.1 else 0)
  }

  /** The replacement count PatchBlock gives each block, 0 for a failed one. */
  function BlockCounts(blocks: seq<Block>, selectorNorm: string, propName: string, newValue: Json, lib: JsonLib)
    : (ns: seq<nat>)
    ensures |ns| == |blocks|
  {
    seq(|blocks|, k requires 0 <= k < |blocks| =>
      var r := PatchBlock(blocks[k], selectorNorm, propName, newValue, lib);
      if r.Success? then r.value.1 else 0)
  }

  /** How many of the counts are positive. */
  function PositiveCount(ns: seq<nat>): nat
  {
    |set k | 0 <= k < |ns| && ns[k] > 0|
  }

  lemma PositiveCountSnoc(ns: seq<nat>, x: nat)
    ensures PositiveCount(ns + [x]) == PositiveCount(ns) + (if x > 0 then 1 else 0)
  {
    var old_ := set k | 0 <= k < |ns| && ns[k] > 0;
    var new_ := set k | 0 <= k < |ns + [x]| && (ns + [x])[k] > 0;
    assert |ns| !in old_;
    if x > 0 {
      assert new_ == old_ + {|ns|};
    } else {
      assert new_ == old_;
    }
  }

  lemma {:induction false} SumSnoc(ns: seq<nat>, x: nat)
    ensures Sum(ns + [x]) == Sum(ns) + x
  {
    if ns != [] {
      assert (ns + [x])[1..] == ns[1..] + [x];
      SumSnoc(ns[1..], x);
    }
  }

  /** A successful loop keeps one block per step, in order, each the step's
      block; the block counter is the number of steps with a positive count
      and the total is the sum of the counts, so no block is patched exactly
      when every step replaced nothing. A failed loop has a failed step. */
  lemma {:induction false} FoldShape(steps: seq<Result<(Block, nat)>>)
    ensures Fold(steps).Success? ==>
      var st := Fold(steps).value;
      |st.0| == |steps| && st.1 <= |steps| && st.1 <= st.2 &&
      (forall k :: 0 <= k < |steps| ==> steps[k].Success? && steps[k].value.0 == st.0[k]) &&
      st.1 == PositiveCount(Counts(steps)) && st.2 == Sum(Counts(steps)) &&
      (st.1 == 0 <==> forall k :: 0 <= k < |steps| ==> steps[k].value.1 == 0)
    ensures Fold(steps).Failure? ==> exists k :: 0 <= k < |steps| && steps[k].Failure?
  {
    if steps != [] {
      var init := steps[..|steps| - 1];
      var last := steps[|steps| - 1];
      FoldShape(init);
      var r := Fold(init);
      if r.Success? {
        var st := r.value;
        if last.Success? {
          assert Counts(steps) == Counts(init) + [last.value.1];
          assert PositiveCount(Counts(steps)) == PositiveCount(Counts(init)) + (if last.value.1 > 0 then 1 else 0) by {
            PositiveCountSnoc(Counts(init), last.value.1);
          }
          assert Sum(Counts(steps)) == Sum(Counts(init)) + last.value.1 by {
            SumSnoc(Counts(init), last.value.1);
          }
          var nbs := st.0 + [last.value.0];
          forall k | 0 <= k < |steps|
            ensures steps[k].Success? && steps[k].value.0 == nbs[k]
          {
            if k < |init| {
              assert steps[k] == init[k];
            }
          }
          if st.1 + (if last.value.1 > 0 then 1 else 0) == 0 {
            forall k | 0 <= k < |steps| ensures steps[k].value.1 == 0 {
              if k < |init| {
                assert steps[k] == init[k];
              }
            }
          } else if st.1 > 0 {
            var k :| 0 <= k < |init| && init[k].value.1 != 0;
            assert steps[k] == init[k];
          }
        }
      } else {
        var k :| 0 <= k < |init| && init[k].Failure?;
        assert steps[k] == init[k];
      }
    }
  }

  /** The new block list has the blocks in the same order, each the result of
      PatchBlock; the block counter is the number of blocks with a positive
      replacement count and the total is the sum of those counts; no block is
      patched exactly when no block had a replacement, and then the list is
      the input. A failed loop has a failed block. */
  lemma PatchAllShape(blocks: seq<Block>, selectorNorm: string, propName: string,
                      newValue: Json, lib: JsonLib)
    ensures var r := PatchAll(blocks, selectorNorm, propName, newValue, lib);
      r.Success? ==>
        var st := r.value;
        |st.0| == |blocks| && st.1 <= |blocks| && st.1 <= st.2 &&
        (forall k :: 0 <= k < |blocks| ==>
           PatchBlock(blocks[k], selectorNorm, propName, newValue, lib).Success? &&
           PatchBlock(blocks[k], selectorNorm, propName, newValue, lib).value.0 == st.0[k]) &&
        st.1 == PositiveCount(BlockCounts(blocks, selectorNorm, propName, newValue, lib)) &&
        st.2 == Sum(BlockCounts(blocks, selectorNorm, propName, newValue, lib)) &&
        (st.1 == 0 <==> forall k :: 0 <= k < |blocks| ==>
           PatchBlock(blocks[k], selectorNorm, propName, newValue, lib).value.1 == 0) &&
        (st.1 == 0 ==> st.0 == blocks)
    ensures PatchAll(blocks, selectorNorm, propName, newValue, lib).Failure? ==>
      exists k :: 0 <= k < |blocks| && PatchBlock(blocks[k], selectorNorm, propName, newValue, lib).Failure?
  {
    var steps := Steps(blocks, selectorNorm, propName, newValue, lib);
    FoldShape(steps);
    var r := Fold(steps);
    if r.Success? {
      assert Counts(steps) == BlockCounts(blocks, selectorNorm, propName, newValue, lib);
      if r.value.1 == 0 {
        assert r.value.0 == blocks;
      }
    }
  }

  /** A block the loop has something to replace in: it matches the selector,
      looks like JSON and parses to a non-null tree holding propName. */
  predicate Replaceable(b: Block, selectorNorm: string, propName: string, lib: JsonLib)
  {
    IsMatchSelector(b.name, selectorNorm) && LooksLike(b.payloadBytes) &&
    lib.parse(b.payloadBytes).Some? && lib.parse(b.payloadBytes) != Some(Null) &&
    HasProp(lib.parse(b.payloadBytes).value, propName)
  }

  /** With a new value free of propName, every block goes through, and it
      gets a positive count exactly when it is replaceable. */
  lemma PatchBlockPatches(b: Block, selectorNorm: string, propName: string, newValue: Json, lib: JsonLib)
    requires !HasProp(newValue, propName)
    ensures var r := PatchBlock(b, selectorNorm, propName, newValue, lib);
      r.Success? && (r.value.1 > 0 <==> Replaceable(b, selectorNorm, propName, lib))
  {
    if IsMatchSelector(b.name, selectorNorm) && LooksLike(b.payloadBytes) &&
       lib.parse(b.payloadBytes).Some? && lib.parse(b.payloadBytes) != Some(Null) {
      ReplaceOutcome(lib.parse(b.payloadBytes).value, propName, newValue);
    }
  }

  /** With a new value free of propName, the loop over the blocks succeeds,
      and it patches some block exactly when some block is replaceable. */
  lemma PatchAllPatches(blocks: seq<Block>, selectorNorm: string, propName: string, newValue: Json, lib: JsonLib)
    requires !HasProp(newValue, propName)
    ensures var r := PatchAll(blocks, selectorNorm, propName, newValue, lib);
      r.Success? &&
      (r.value.1 > 0 <==> exists k :: 0 <= k < |blocks| && Replaceable(blocks[k], selectorNorm, propName, lib))
  {
    PatchAllShape(blocks, selectorNorm, propName, newValue, lib);
    forall k | 0 <= k < |blocks|
      ensures PatchBlock(blocks[k], selectorNorm, propName, newValue, lib).Success?
      ensures PatchBlock(blocks[k], selectorNorm, propName, newValue, lib).value.1 > 0 <==>
              Replaceable(blocks[k], selectorNorm, propName, lib)
    {
      PatchBlockPatches(blocks[k], selectorNorm, propName, newValue, lib);
    }
  }

  // ---------------------------------------------------------------------------
  // PatchJsonProperty

  /** What a successful patch produces: the bytes of the output file and the
      two counters the tool reports. */
  datatype PatchOutcome = PatchOutcome(output: seq<byte>, patchedBlocks: nat, patchedProps: nat)

  /** PatchJsonProperty on the bytes of the input file: decode, split into
      blocks, check the replacement value, patch, rebuild and re-encode under
      the original header. */
  function PatchSpec(file: seq<byte>, blockSelector: string, propName: string, valueJson: seq<byte>,
                     z: Zlib, md5: seq<byte> -> Digest, lib: JsonLib): Result<PatchOutcome>
  {
    match DecodeSpec(file, z)
    case Failure(e) => Failure(e)
    case Success(ssf) =>
      match ParseSpec(ssf.decompressedPayload)
      case Failure(e) => Failure(e)
      case Success(parsed) => PatchParsed(ssf.headerBytes, parsed, blockSelector, propName, valueJson, z, md5, lib)
  }

  /** The rest of PatchJsonProperty once the save is decoded (its header is
      headerBytes) and its payload split into parsed. */
  function PatchParsed(headerBytes: seq<byte>, parsed: ParseResult, blockSelector: string, propName: string,
                       valueJson: seq<byte>, z: Zlib, md5: seq<byte> -> Digest, lib: JsonLib): Result<PatchOutcome>
  {
    match lib.parse(valueJson)
    case None => Failure(InvalidValueJson)
    case Some(newValue) =>
      if newValue == Null then Failure(NullValueJson)
      else
        match PatchAll(parsed.blocks, Normalize(blockSelector), propName, newValue, lib)
        case Failure(e) => Failure(e)
        case Success((newBlocks, patchedBlocks, patchedProps)) =>
          if patchedBlocks == 0 then Failure(NoBlockPatched)
          else
            var rebuilt := BuildSpec(parsed.prefixBytes, newBlocks, parsed.suffixBytes);
            match EncodeSpec(headerBytes, rebuilt, DefaultChunkSize, z, md5)
            case Failure(e) => Failure(e)
            case Success(out) => Success(PatchOutcome(out, patchedBlocks, patchedProps))
  }

  /** For a parsed save and a non-null value free of propName, the patch is
      refused as a no-op exactly when no block matches the selector with a
      replaceable property. */
  lemma NoBlockPatchedIff(headerBytes: seq<byte>, parsed: ParseResult, blockSelector: string, propName: string,
                          valueJson: seq<byte>, z: Zlib, md5: seq<byte> -> Digest, lib: JsonLib)
    requires lib.parse(valueJson).Some? && lib.parse(valueJson) != Some(Null)
    requires !HasProp(lib.parse(valueJson).value, propName)
    ensures PatchParsed(headerBytes, parsed, blockSelector, propName, valueJson, z, md5, lib) == Failure(NoBlockPatched) <==>
      !exists k :: 0 <= k < |parsed.blocks| && Replaceable(parsed.blocks[k], Normalize(blockSelector), propName, lib)
  {
    PatchAllPatches(parsed.blocks, Normalize(blockSelector), propName, lib.parse(valueJson).value, lib);
  }

  /** The same for a whole save file: once it decodes and splits, the patch is
      refused as a no-op exactly when no block is replaceable. */
  lemma PatchSpecNoBlockPatchedIff(file: seq<byte>, blockSelector: string, propName: string, valueJson: seq<byte>,
                                   z: Zlib, md5: seq<byte> -> Digest, lib: JsonLib)
    requires DecodeSpec(file, z).Success?
    requires ParseSpec(DecodeSpec(file, z).value.decompressedPayload).Success?
    requires lib.parse(valueJson).Some? && lib.parse(valueJson) != Some(Null)
    requires !HasProp(lib.parse(valueJson).value, propName)
    ensures var blocks := ParseSpec(DecodeSpec(file, z).value.decompressedPayload).value.blocks;
      PatchSpec(file, blockSelector, propName, valueJson, z, md5, lib) == Failure(NoBlockPatched) <==>
      !exists k :: 0 <= k < |blocks| && Replaceable(blocks[k], Normalize(blockSelector), propName, lib)
  {
    var ssf := DecodeSpec(file, z).value;
    NoBlockPatchedIff(ssf.headerBytes, ParseSpec(ssf.decompressedPayload).value, blockSelector, propName,
                      valueJson, z, md5, lib);
  }

  method PatchJsonProperty(inputMapFile: seq<byte>, blockSelector: string, propName: string, valueJson: seq<byte>,
                           z: Zlib, md5: seq<byte> -> Digest, lib: JsonLib) returns (r: Result<PatchOutcome>)
    ensures r == PatchSpec(inputMapFile, blockSelector, propName, valueJson, z, md5, lib)
  {
    var ssf := Decode(inputMapFile, z);
    if ssf.Failure? {
      return Failure(ssf.error);
    }
    var parsed := Parse(ssf.value.decompressedPayload);
    if parsed.Failure? {
      return Failure(parsed.error);
    }
    var selectorNorm := Normalize(blockSelector);
    var newValueNode := lib.parse(valueJson);
    if newValueNode.None? {
      return Failure(InvalidValueJson);
    }
    if newValueNode.value == Null {
      return Failure(NullValueJson);
    }
    var patched := PatchBlocks(parsed.value.blocks, selectorNorm, propName, newValueNode.value, lib);
    if patched.Failure? {
      return Failure(patched.error);
    }
    var (newBlocks, patchedBlocks, patchedPropsTotal) := patched.value;
    if patchedBlocks == 0 {
      return Failure(NoBlockPatched);
    }
    var rebuilt := Build(parsed.value.prefixBytes, newBlocks, parsed.value.suffixBytes);
    var out := EncodeWithHeaderBytes(ssf.value.headerBytes, rebuilt, DefaultChunkSize, z, md5);
    if out.Failure? {
      return Failure(out.error);
    }
    return Success(PatchOutcome(out.value, patchedBlocks, patchedPropsTotal));
  }

  /** The foreach over the blocks with its two counters. */
  method PatchBlocks(blocks: seq<Block>, selectorNorm: string, propName: string, newValue: Json, lib: JsonLib)
    returns (r: Result<(seq<Block>, nat, nat)>)
    ensures r == PatchAll(blocks, selectorNorm, propName, newValue, lib)
  {
    ghost var steps := Steps(blocks, selectorNorm, propName, newValue, lib);
    var patchedBlocks := 0;
    var patchedPropsTotal := 0;
    var newBlocks: seq<Block> := [];
    for k := 0 to |blocks|
      invariant Fold(steps[..k]) == Success((newBlocks, patchedBlocks, patchedPropsTotal))
    {
      var next := PatchTurn(blocks[k], selectorNorm, propName, newValue, lib,
                            newBlocks, patchedBlocks, patchedPropsTotal);
      assert Fold(steps[..k + 1]) == next by {
        assert steps[k] == PatchBlock(blocks[k], selectorNorm, propName, newValue, lib);
        FoldSnoc(steps, k);
      }
      if next.Failure? {
        FoldFailed(steps, k + 1);
        return next;
      }
      newBlocks, patchedBlocks, patchedPropsTotal := next.value.0, next.value.1, next.value.2;
    }
    assert steps[..|blocks|] == steps;
    return Success((newBlocks, patchedBlocks, patchedPropsTotal));
  }

  /** One turn of the block loop: the block passed on, or patched and
      counted. */
  method PatchTurn(b: Block, selectorNorm: string, propName: string, newValue: Json, lib: JsonLib,
                   newBlocks: seq<Block>, patchedBlocks: nat, patchedPropsTotal: nat)
    returns (r: Result<(seq<Block>, nat, nat)>)
    ensures r == Extend(Success((newBlocks, patchedBlocks, patchedPropsTotal)),
                        PatchBlock(b, selectorNorm, propName, newValue, lib))
  {
    var step := PatchOne(b, selectorNorm, propName, newValue, lib);
    if step.Failure? {
      return Failure(step.error);
    }
    var (nb, patchedHere) := step.value;
    var blocks' := newBlocks + [nb];
    var patchedBlocks', patchedPropsTotal' := patchedBlocks, patchedPropsTotal;
    if patchedHere > 0 {
      patchedBlocks' := patchedBlocks + 1;
      patchedPropsTotal' := patchedPropsTotal + patchedHere;
    }
    ExtendSuccess((newBlocks, patchedBlocks, patchedPropsTotal), step.value);
    return Success((blocks', patchedBlocks', patchedPropsTotal'));
  }

  /** The body of the block loop. */
  method PatchOne(b: Block, selectorNorm: string, propName: string, newValue: Json, lib: JsonLib)
    returns (r: Result<(Block, nat)>)
    ensures r == PatchBlock(b, selectorNorm, propName, newValue, lib)
  {
    var looks := LooksLikeJson(b.payloadBytes);
    if !IsMatchSelector(b.name, selectorNorm) || !looks {
      return Success((b, 0));
    }
    var root := lib.parse(b.payloadBytes);
    if root.None? || root.value == Null {
      return Success((b, 0));
    }
    var replaced := ReplacePropertyRecursive(root.value, propName, newValue);
    if replaced.Failure? {
      return Failure(replaced.error);
    }
    var (t, patchedHere) := replaced.value;
    if patchedHere > 0 {
      return Success((Block(b.name, b.nameBytes, lib.serialize(t)), patchedHere));
    }
    return Success((b, 0));
  }

  /** The replacement value is checked after the file is decoded and split
      and before any block is looked at; a patch that changes no block is
      refused; a successful patch re-encodes the rebuilt block list under the
      decoded header and reports at least one patched block and at least as
      many replacements. */
  lemma PatchOutcomes(file: seq<byte>, blockSelector: string, propName: string, valueJson: seq<byte>,
                      z: Zlib, md5: seq<byte> -> Digest, lib: JsonLib)
    ensures DecodeSpec(file, z).Failure? ==>
      PatchSpec(file, blockSelector, propName, valueJson, z, md5, lib) == Failure(DecodeSpec(file, z).error)
    ensures DecodeSpec(file, z).Success? && ParseSpec(DecodeSpec(file, z).value.decompressedPayload).Success? ==>
      (lib.parse(valueJson).None? ==>
         PatchSpec(file, blockSelector, propName, valueJson, z, md5, lib) == Failure(InvalidValueJson)) &&
      (lib.parse(valueJson) == Some(Null) ==>
         PatchSpec(file, blockSelector, propName, valueJson, z, md5, lib) == Failure(NullValueJson))
    ensures DecodeSpec(file, z).Success? && ParseSpec(DecodeSpec(file, z).value.decompressedPayload).Success? &&
            lib.parse(valueJson).Some? && lib.parse(valueJson).value != Null ==>
      var parsed := ParseSpec(DecodeSpec(file, z).value.decompressedPayload).value;
      var all := PatchAll(parsed.blocks, Normalize(blockSelector), propName, lib.parse(valueJson).value, lib);
      all.Success? && all.value.1 == 0 ==>
        PatchSpec(file, blockSelector, propName, valueJson, z, md5, lib) == Failure(NoBlockPatched)
    ensures PatchSpec(file, blockSelector, propName, valueJson, z, md5, lib).Success? ==>
      var o := PatchSpec(file, blockSelector, propName, valueJson, z, md5, lib).value;
      var ssf := DecodeSpec(file, z).value;
      var parsed := ParseSpec(ssf.decompressedPayload).value;
      var all := PatchAll(parsed.blocks, Normalize(blockSelector), propName, lib.parse(valueJson).value, lib);
      all.Success? && 1 <= o.patchedBlocks <= o.patchedProps &&
      (o.patchedBlocks, o.patchedProps) == (all.value.1, all.value.2) &&
      Success(o.output) ==
        EncodeSpec(ssf.headerBytes, BuildSpec(parsed.prefixBytes, all.value.0, parsed.suffixBytes), DefaultChunkSize, z, md5)
  {
    if DecodeSpec(file, z).Success? && ParseSpec(DecodeSpec(file, z).value.decompressedPayload).Success? &&
       lib.parse(valueJson).Some? && lib.parse(valueJson).value != Null {
      var parsed := ParseSpec(DecodeSpec(file, z).value.decompressedPayload).value;
      var all := PatchAll(parsed.blocks, Normalize(blockSelector), propName, lib.parse(valueJson).value, lib);
      assert all.Success? ==> all.value.1 <= all.value.2 by {
        PatchAllShape(parsed.blocks, Normalize(blockSelector), propName, lib.parse(valueJson).value, lib);
      }
    }
  }
}
