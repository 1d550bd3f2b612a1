/** Byte-level JSON helpers: sniffing a payload, locating JSON documents in a
    binary blob by counting structural tokens, the bounded needle search that
    filters them, and harvesting printable strings. */
module JsonExtractor {
  import opened Wrappers
  import opened Bytes
  import opened Json

  const OpenBrace: byte := 123    // '{'
  const OpenBracket: byte := 91   // '['
  /** The needle must occur within this many bytes before a candidate... */
  const NeedleBefore: int := 4096
  /** ...in a window of at most this many bytes. */
  const NeedleWindow: int := 8192
  /** A printable run is cut once it grows beyond this length. */
  const MaxRun: int := 4096

  predicate IsWs(b: byte) { b == 32 || b == 10 || b == 13 || b == 9 }

  predicate IsOpen(b: byte) { b == OpenBrace || b == OpenBracket }

  // ---------------------------------------------------------------------------
  // LooksLikeJson

  /** The first index at or after i that holds no whitespace, or |bytes|. */
  function SkipWs(bytes: seq<byte>, i: int): (j: int)
    requires 0 <= i <= |bytes|
    ensures i <= j <= |bytes|
    decreases |bytes| - i
  {
    if i < |bytes| && IsWs(bytes[i]) then SkipWs(bytes, i + 1) else i
  }

  predicate LooksLike(bytes: seq<byte>)
  {
    var i := SkipWs(bytes, 0);
    i < |bytes| && IsOpen(bytes[i])
  }

  method LooksLikeJson(bytes: seq<byte>) returns (r: bool)
    ensures r == LooksLike(bytes)
  {
    var i := 0;
    while i < |bytes| && IsWs(bytes[i])
      invariant 0 <= i <= |bytes|
      invariant SkipWs(bytes, i) == SkipWs(bytes, 0)
      decreases |bytes| - i
    {
      i := i + 1;
    }
    if i >= |bytes| {
      return false;
    }
    return bytes[i] == OpenBrace || bytes[i] == OpenBracket;
  }

  lemma {:induction false} SkipWsIsFirst(bytes: seq<byte>, i: int)
    requires 0 <= i <= |bytes|
    ensures forall k :: i <= k < SkipWs(bytes, i) ==> IsWs(bytes[k])
    ensures SkipWs(bytes, i) < |bytes| ==> !IsWs(bytes[SkipWs(bytes, i)])
    decreases |bytes| - i
  {
    if i < |bytes| && IsWs(bytes[i]) {
      SkipWsIsFirst(bytes, i + 1);
    }
  }

  /** The sniff accepts exactly when the first byte other than space, LF, CR
      and tab opens an object or an array; empty or all-blank input fails. */
  lemma LooksLikeFirstNonWs(bytes: seq<byte>)
    ensures LooksLike(bytes) <==>
      exists i :: 0 <= i < |bytes| && (forall k :: 0 <= k < i ==> IsWs(bytes[k])) && IsOpen(bytes[i])
    ensures (forall k :: 0 <= k < |bytes| ==> IsWs(bytes[k])) ==> !LooksLike(bytes)
  {
    SkipWsIsFirst(bytes, 0);
    var j := SkipWs(bytes, 0);
    if exists i :: 0 <= i < |bytes| && (forall k :: 0 <= k < i ==> IsWs(bytes[k])) && IsOpen(bytes[i]) {
      var i :| 0 <= i < |bytes| && (forall k :: 0 <= k < i ==> IsWs(bytes[k])) && IsOpen(bytes[i]);
    }
  }

  // ---------------------------------------------------------------------------
  // IndexOf

  predicate MatchAt(hay: seq<byte>, needle: seq<byte>, i: int)
  {
    0 <= i && i + |needle| <= |hay| && hay[i..i + |needle|] == needle
  }

  /** The least i in [start, start + count - |needle|] where needle occurs in
      hay, or -1. */
  method IndexOf(hay: seq<byte>, needle: seq<byte>, start: int, count: int) returns (r: int)
    requires 0 <= start && 0 <= count && start + count <= |hay|
    ensures r == -1 || (start <= r <= start + count - |needle| && MatchAt(hay, needle, r))
    ensures forall i :: start <= i <= start + count - |needle| && (r == -1 || i < r) ==> !MatchAt(hay, needle, i)
  {
    var end := start + count - |needle|;
    var i := start;
    while i <= end
      invariant start <= i
      invariant forall i' :: start <= i' < i ==> !MatchAt(hay, needle, i')
      decreases end - i
    {
      var ok := true;
      var j := 0;
      while j < |needle|
        invariant 0 <= j <= |needle|
        invariant ok == (hay[i..i + j] == needle[..j])
        decreases |needle| - j
      {
        if hay[i + j] != needle[j] {
          ok := false;
          assert hay[i..i + |needle|][j] != needle[j];
          break;
        }
        assert hay[i..i + j + 1] == hay[i..i + j] + [hay[i + j]];
        assert needle[..j + 1] == needle[..j] + [needle[j]];
        j := j + 1;
      }
      if ok {
        assert needle[..|needle|] == needle;
        return i;
      }
      i := i + 1;
    }
    return -1;
  }

  /** The window around a candidate offset that must hold the needle. */
  function WindowStart(off: int): int { if off - NeedleBefore > 0 then off - NeedleBefore else 0 }

  function WindowLen(len: int, off: int): int { Min(len - WindowStart(off), NeedleWindow) }

  predicate NeedleNear(bytes: seq<byte>, needle: seq<byte>, off: int)
  {
    var ws := WindowStart(off);
    exists k :: ws <= k <= ws + WindowLen(|bytes|, off) - |needle| && MatchAt(bytes, needle, k)
  }

  /** Without a needle every candidate is admitted. */
  predicate Admitted(bytes: seq<byte>, needle: seq<byte>, off: int)
  {
    |needle| == 0 || NeedleNear(bytes, needle, off)
  }

  // ---------------------------------------------------------------------------
  // TryParseAt: the depth count over the reader's tokens

  predicate IsStart(k: TokenKind) { k == StartObject || k == StartArray }

  predicate IsEnd(k: TokenKind) { k == EndObject || k == EndArray }

  function Delta(k: TokenKind): int { if IsStart(k) then 1 else if IsEnd(k) then -1 else 0 }

  /** Depth after the first n tokens: starts count up, ends count down. */
  function Depth(toks: seq<Token>, n: int): int
    requires 0 <= n <= |toks|
  {
    if n == 0 then 0 else Depth(toks, n - 1) + Delta(toks[n - 1].kind)
  }

  /** The index of the token at or after k that brings the depth, depth on
      entry, back to zero. */
  function CloseFrom(toks: seq<Token>, k: int, depth: int): (r: Option<int>)
    requires 0 <= k <= |toks| && depth >= 1
    ensures r.Some? ==> k <= r.value < |toks|
    decreases |toks| - k
  {
    if k == |toks| then None
    else
      var d := depth + Delta(toks[k].kind);
      if d == 0 then Some(k) else CloseFrom(toks, k + 1, d)
  }

  /** What TryParseAt yields at offset: the bytes consumed up to the token
      closing the first object or array, and the parsed document. The memory
      slice throws for a count beyond the span and an empty slice does not
      parse; both are caught and give None. */
  function ParseAtSpec(bytes: seq<byte>, offset: int, lib: JsonLib): (r: Option<(int, Json)>)
    requires 0 <= offset <= |bytes|
    ensures r.Some? ==> 1 <= r.value.0 <= |bytes| - offset
  {
    var toks := lib.tokenize(bytes[offset..]);
    if |toks| == 0 || !IsStart(toks[0].kind) then None
    else
      match CloseFrom(toks, 1, 1)
      case None => None
      case Some(k) =>
        var c := toks[k].end;
        if c == 0 || c > |bytes| - offset then None
        else
          match lib.parse(bytes[offset..offset + c])
          case None => None
          case Some(e) => Some((c, e))
  }

  method TryParseAt(bytes: seq<byte>, offset: int, lib: JsonLib) returns (r: Option<(int, Json)>)
    requires 0 <= offset <= |bytes|
    ensures r == ParseAtSpec(bytes, offset, lib)
  {
    var toks := lib.tokenize(bytes[offset..]);
    if |toks| == 0 {
      return None;
    }
    var depth := 0;
    if IsStart(toks[0].kind) {
      depth := 1;
    } else {
      return None;
    }
    var k := 1;
    while k < |toks|
      invariant 1 <= k <= |toks| && depth >= 1
      invariant CloseFrom(toks, 1, 1) == CloseFrom(toks, k, depth)
      decreases |toks| - k
    {
      if IsStart(toks[k].kind) { depth := depth + 1; }
      if IsEnd(toks[k].kind) { depth := depth - 1; }
      if depth == 0 {
        var consumed := toks[k].end;
        if consumed == 0 || consumed > |bytes| - offset {
          return None;
        }
        var doc := lib.parse(bytes[offset..offset + consumed]);
        if doc.None? {
          return None;
        }
        return Some((consumed, doc.value));
      }
      k := k + 1;
    }
    return None;
  }

  /** CloseFrom finds the first token after the opening one at which the
      running depth is zero again, and None when the depth stays positive
      to the end. */
  lemma {:induction false} CloseFromIsFirstZero(toks: seq<Token>, k: int, depth: int)
    requires 1 <= k <= |toks| && depth >= 1 && depth == Depth(toks, k)
    ensures CloseFrom(toks, k, depth).Some? ==>
      var c := CloseFrom(toks, k, depth).value;
      k <= c < |toks| && Depth(toks, c + 1) == 0 &&
      forall n :: k <= n <= c ==> Depth(toks, n) >= 1
    ensures CloseFrom(toks, k, depth).None? ==> forall n :: k <= n <= |toks| ==> Depth(toks, n) >= 1
    decreases |toks| - k
  {
    if k < |toks| {
      var d := depth + Delta(toks[k].kind);
      if d != 0 {
        CloseFromIsFirstZero(toks, k + 1, d);
      }
    }
  }

  /** The depth loop accepts only a stream whose first token opens an object
      or an array, and stops at the first later token where the depth is
      zero: consumed is the reader's position after that token. */
  lemma ParseAtFirstClose(bytes: seq<byte>, offset: int, lib: JsonLib)
    requires 0 <= offset <= |bytes|
    ensures var toks := lib.tokenize(bytes[offset..]);
      ParseAtSpec(bytes, offset, lib).Some? ==>
        |toks| > 0 && IsStart(toks[0].kind) &&
        exists c :: 1 <= c < |toks| && Depth(toks, c + 1) == 0 &&
          (forall n :: 1 <= n <= c ==> Depth(toks, n) >= 1) &&
          ParseAtSpec(bytes, offset, lib).value.0 == toks[c].end &&
          lib.parse(bytes[offset..offset + toks[c].end]) == Some(ParseAtSpec(bytes, offset, lib).value.1)
    ensures var toks := lib.tokenize(bytes[offset..]);
      (|toks| > 0 && IsStart(toks[0].kind) && forall n :: 1 <= n <= |toks| ==> Depth(toks, n) >= 1) ==>
        ParseAtSpec(bytes, offset, lib).None?
  {
    var toks := lib.tokenize(bytes[offset..]);
    if |toks| > 0 && IsStart(toks[0].kind) {
      assert Depth(toks, 1) == 1 by { assert Depth(toks, 0) == 0; }
      CloseFromIsFirstZero(toks, 1, 1);
      if CloseFrom(toks, 1, 1).Some? {
      }
    }
  }

  // ---------------------------------------------------------------------------
  // The fragment scan shared by ExtractJsonFragments and TryExtractLargestJson

  /** A document found in the blob: where it starts, how many bytes it spans
      and what it parsed to. */
  datatype Fragment = Fragment(offset: int, length: int, data: Json)

  /** The first '{' or '[' at or after i, or |bytes|. */
  function NextOpen(bytes: seq<byte>, i: int): (j: int)
    requires 0 <= i <= |bytes|
    ensures i <= j <= |bytes|
    decreases |bytes| - i
  {
    if i < |bytes| && !IsOpen(bytes[i]) then NextOpen(bytes, i + 1) else i
  }

  /** Every fragment the scan from i finds, in order: at each '{' or '['
      admitted by the needle it tries to parse; a success is kept and
      skipped over, anything else moves on by one byte. */
  function Scan(bytes: seq<byte>, i: int, needle: seq<byte>, lib: JsonLib): seq<Fragment>
    requires 0 <= i <= |bytes|
    decreases |bytes| - i
  {
    if i == |bytes| then []
    else
      var j := NextOpen(bytes, i);
      if j == |bytes| then []
      else
        var st := StepAt(bytes, j, needle, lib);
        FoundOf(st.0) + Scan(bytes, st.1, needle, lib)
  }

  /** The outcome at a '{' or '[' at j: the fragment found there, if any, and
      where the scan resumes. */
  function StepAt(bytes: seq<byte>, j: int, needle: seq<byte>, lib: JsonLib): (r: (Option<Fragment>, int))
    requires 0 <= j < |bytes|
    ensures j < r.1 <= |bytes|
  {
    if !Admitted(bytes, needle, j) then (None, j + 1)
    else
      match ParseAtSpec(bytes, j, lib)
      case Some((c, e)) => (Some(Fragment(j, c, e)), j + c)
      case None => (None, j + 1)
  }

  function FoundOf(f: Option<Fragment>): seq<Fragment>
  {
    if f.Some? then [f.value] else []
  }

  /** One pass through the body of the scanning loops, from i < |bytes|. */
  method ScanStep(bytes: seq<byte>, i: int, needle: seq<byte>, lib: JsonLib) returns (f: Option<Fragment>, next: int)
    requires 0 <= i < |bytes|
    ensures i < next <= |bytes|
    ensures Scan(bytes, i, needle, lib) == FoundOf(f) + Scan(bytes, next, needle, lib)
  {
    var j := SkipToOpen(bytes, i);
    if j >= |bytes| {
      return None, |bytes|;
    }
    f, next := TryAt(bytes, j, needle, lib);
  }

  method SkipToOpen(bytes: seq<byte>, i: int) returns (j: int)
    requires 0 <= i <= |bytes|
    ensures j == NextOpen(bytes, i)
  {
    j := i;
    while j < |bytes| && bytes[j] != OpenBrace && bytes[j] != OpenBracket
      invariant i <= j <= |bytes|
      invariant NextOpen(bytes, j) == NextOpen(bytes, i)
      decreases |bytes| - j
    {
      j := j + 1;
    }
  }

  method TryAt(bytes: seq<byte>, j: int, needle: seq<byte>, lib: JsonLib) returns (f: Option<Fragment>, next: int)
    requires 0 <= j < |bytes|
    ensures (f, next) == StepAt(bytes, j, needle, lib)
  {
    if |needle| > 0 {
      var wStart := if j - NeedleBefore > 0 then j - NeedleBefore else 0;
      var wLen := Min(|bytes| - wStart, NeedleWindow);
      var at := IndexOf(bytes, needle, wStart, wLen);
      if at < 0 {
        return None, j + 1;
      }
    }
    var p := TryParseAt(bytes, j, lib);
    if p.Some? {
      var (c, e) := p.value;
      return Some(Fragment(j, c, e)), j + c;
    }
    return None, j + 1;
  }

  /** A fragment is a successful parse at an admitted '{' or '['. */
  predicate FragmentAt(bytes: seq<byte>, needle: seq<byte>, lib: JsonLib, f: Fragment)
  {
    0 <= f.offset < |bytes| && IsOpen(bytes[f.offset]) && Admitted(bytes, needle, f.offset) &&
    ParseAtSpec(bytes, f.offset, lib) == Some((f.length, f.data))
  }

  /** A fragment found by a scan from i. */
  predicate FragmentIn(bytes: seq<byte>, i: int, needle: seq<byte>, lib: JsonLib, f: Fragment)
  {
    FragmentAt(bytes, needle, lib, f) && i <= f.offset && 1 <= f.length && f.offset + f.length <= |bytes|
  }

  /** Fragments in increasing order, none overlapping a later one. */
  predicate Disjoint(fs: seq<Fragment>)
  {
    forall k, l :: 0 <= k < l < |fs| ==> fs[k].offset + fs[k].length <= fs[l].offset
  }

  /** A fragment found at j is a successful parse there, and the scan
      resumes right after it. */
  lemma StepAtFound(bytes: seq<byte>, j: int, needle: seq<byte>, lib: JsonLib)
    requires 0 <= j < |bytes| && IsOpen(bytes[j])
    ensures var st := StepAt(bytes, j, needle, lib);
      st.0.Some? ==> (FragmentAt(bytes, needle, lib, st.0.value) && st.0.value.offset == j &&
                      1 <= st.0.value.length && st.1 == j + st.0.value.length)
  {
  }

  /** Every fragment the scan from i finds is a successful parse at an
      admitted '{' or '[' at or after i, and lies inside the input. */
  lemma {:induction false} ScanFragmentsValid(bytes: seq<byte>, i: int, needle: seq<byte>, lib: JsonLib)
    requires 0 <= i <= |bytes|
    ensures forall k :: 0 <= k < |Scan(bytes, i, needle, lib)| ==>
      FragmentIn(bytes, i, needle, lib, Scan(bytes, i, needle, lib)[k])
    decreases |bytes| - i
  {
    if i < |bytes| {
      var j := NextOpen(bytes, i);
      NextOpenIsOpen(bytes, i);
      if j < |bytes| {
        var st := StepAt(bytes, j, needle, lib);
        var f, next := st.0, st.1;
        ScanFragmentsValid(bytes, next, needle, lib);
        StepAtFound(bytes, j, needle, lib);
        var rest := Scan(bytes, next, needle, lib);
        var s := FoundOf(f) + rest;
        assert Scan(bytes, i, needle, lib) == s;
        forall k | 0 <= k < |s|
          ensures FragmentIn(bytes, i, needle, lib, s[k])
        {
          if k >= |FoundOf(f)| {
            assert s[k] == rest[k - |FoundOf(f)|];
            assert FragmentIn(bytes, next, needle, lib, rest[k - |FoundOf(f)|]);
          } else {
            assert s[k] == f.value;
          }
        }
      }
    }
  }

  /** The fragments the scan finds are in increasing order and do not
      overlap. */
  lemma {:induction false} ScanDisjoint(bytes: seq<byte>, i: int, needle: seq<byte>, lib: JsonLib)
    requires 0 <= i <= |bytes|
    ensures Disjoint(Scan(bytes, i, needle, lib))
    decreases |bytes| - i
  {
    if i < |bytes| {
      var j := NextOpen(bytes, i);
      if j < |bytes| {
        var st := StepAt(bytes, j, needle, lib);
        var f, next := st.0, st.1;
        ScanDisjoint(bytes, next, needle, lib);
        var rest := Scan(bytes, next, needle, lib);
        assert Scan(bytes, i, needle, lib) == FoundOf(f) + rest;
        if f.Some? {
          assert next == f.value.offset + f.value.length;
          assert forall k :: 0 <= k < |rest| ==> next <= rest[k].offset by {
            ScanFragmentsValid(bytes, next, needle, lib);
          }
          DisjointCons(f.value, rest);
        }
      }
    }
  }

  /** A fragment ending where the next ones start keeps them disjoint. */
  lemma DisjointCons(f: Fragment, rest: seq<Fragment>)
    requires Disjoint(rest)
    requires forall k :: 0 <= k < |rest| ==> f.offset + f.length <= rest[k].offset
    ensures Disjoint([f] + rest)
  {
    var s := [f] + rest;
    forall k, l | 0 <= k < l < |s| ensures s[k].offset + s[k].length <= s[l].offset {
      assert s[l] == rest[l - 1];
      if k > 0 {
        assert s[k] == rest[k - 1];
      }
    }
  }

  lemma {:induction false} NextOpenIsOpen(bytes: seq<byte>, i: int)
    requires 0 <= i <= |bytes|
    ensures NextOpen(bytes, i) < |bytes| ==> IsOpen(bytes[NextOpen(bytes, i)])
    decreases |bytes| - i
  {
    if i < |bytes| && !IsOpen(bytes[i]) {
      NextOpenIsOpen(bytes, i + 1);
    }
  }

  // ---------------------------------------------------------------------------
  // ExtractJsonFragments

  /** The first n fragments of the scan, or all of them if there are fewer. */
  function Take(fs: seq<Fragment>, n: int): seq<Fragment>
    requires n >= 0
  {
    fs[..Min(n, |fs|)]
  }

  /** The fragments found from the start, at most maxFragments of them, with
      the needle (the ASCII bytes of contains, none when it is empty) within
      the window around each. A negative maxFragments is a negative list
      capacity, which throws. */
  method ExtractJsonFragments(bytes: seq<byte>, contains: string, maxFragments: int, lib: JsonLib)
    returns (r: Result<seq<Fragment>>)
    ensures maxFragments < 0 ==> r == Failure(OutOfRange)
    ensures maxFragments >= 0 ==> r == Success(Take(Scan(bytes, 0, AsciiEncode(contains), lib), maxFragments))
    ensures r.Success? ==> (|r.value| <= maxFragments && Disjoint(r.value) &&
      forall k :: 0 <= k < |r.value| ==>
        FragmentAt(bytes, AsciiEncode(contains), lib, r.value[k]) &&
        1 <= r.value[k].length && r.value[k].offset + r.value[k].length <= |bytes|)
  {
    if maxFragments < 0 {
      return Failure(OutOfRange);
    }
    var needle := AsciiEncode(contains);
    ghost var all := Scan(bytes, 0, needle, lib);
    var results: seq<Fragment> := [];
    var i := 0;
    while i < |bytes| && |results| < maxFragments
      invariant 0 <= i <= |bytes| && |results| <= maxFragments
      invariant all == results + Scan(bytes, i, needle, lib)
      decreases |bytes| - i
    {
      var f, next := ScanStep(bytes, i, needle, lib);
      ConcatAssoc(results, FoundOf(f), Scan(bytes, next, needle, lib));
      results := results + FoundOf(f);
      i := next;
    }
    assert results == Take(all, maxFragments) by {
      assert all[..|results|] == results;
      if i == |bytes| {
        assert all == results;
      }
    }
    TakeFragments(bytes, needle, lib, maxFragments);
    return Success(results);
  }

  lemma TakeFragments(bytes: seq<byte>, needle: seq<byte>, lib: JsonLib, n: int)
    requires n >= 0
    ensures var fs := Take(Scan(bytes, 0, needle, lib), n);
      |fs| <= n && Disjoint(fs) &&
      forall k :: 0 <= k < |fs| ==>
        FragmentAt(bytes, needle, lib, fs[k]) && 1 <= fs[k].length && fs[k].offset + fs[k].length <= |bytes|
  {
    var all := Scan(bytes, 0, needle, lib);
    ScanFragmentsValid(bytes, 0, needle, lib);
    ScanDisjoint(bytes, 0, needle, lib);
    var fs := Take(all, n);
    assert forall k :: 0 <= k < |fs| ==> fs[k] == all[k];
  }

  // ---------------------------------------------------------------------------
  // TryExtractLargestJson

  /** The scan without a needle. */
  function Candidates(bytes: seq<byte>, lib: JsonLib): seq<Fragment>
  {
    Scan(bytes, 0, [], lib)
  }

  /** The best (offset, length) after visiting fs with best so far (bo, bl):
      only a strictly longer fragment replaces the best. */
  function Best(fs: seq<Fragment>, bo: int, bl: int): (int, int)
  {
    if fs == [] then (bo, bl)
    else if fs[0].length > bl then Best(fs[1..], fs[0].offset, fs[0].length)
    else Best(fs[1..], bo, bl)
  }

  /** Best gives the maximum length, and the first fragment attaining it,
      unless no fragment beats the starting value. */
  lemma {:induction false} BestIsFirstMaximum(fs: seq<Fragment>, bo: int, bl: int)
    ensures var (o, l) := Best(fs, bo, bl);
      bl <= l && (forall k :: 0 <= k < |fs| ==> fs[k].length <= l) &&
      ((o, l) == (bo, bl) ||
       exists k :: 0 <= k < |fs| && fs[k].offset == o && fs[k].length == l && bl < l &&
         forall m :: 0 <= m < k ==> fs[m].length < l)
  {
    if fs != [] {
      var tail := fs[1..];
      assert forall k :: 1 <= k < |fs| ==> fs[k] == tail[k - 1];
      if fs[0].length > bl {
        BestIsFirstMaximum(tail, fs[0].offset, fs[0].length);
        var (o, l) := Best(tail, fs[0].offset, fs[0].length);
        if (o, l) != (fs[0].offset, fs[0].length) {
          var k :| 0 <= k < |tail| && tail[k].offset == o && tail[k].length == l && fs[0].length < l &&
            forall m :: 0 <= m < k ==> tail[m].length < l;
          assert fs[k + 1] == tail[k];
          assert forall m :: 0 <= m < k + 1 ==> fs[m].length < l;
        }
      } else {
        BestIsFirstMaximum(tail, bo, bl);
        var (o, l) := Best(tail, bo, bl);
        if (o, l) != (bo, bl) {
          var k :| 0 <= k < |tail| && tail[k].offset == o && tail[k].length == l && bl < l &&
            forall m :: 0 <= m < k ==> tail[m].length < l;
          assert fs[k + 1] == tail[k];
          assert forall m :: 0 <= m < k + 1 ==> fs[m].length < l;
        }
      }
    }
  }

  lemma BestConcat(a: seq<Fragment>, b: seq<Fragment>, bo: int, bl: int)
    requires |a| <= 1
    ensures Best(a + b, bo, bl) == Best(b, Best(a, bo, bl).0, Best(a, bo, bl).1)
  {
    if |a| == 1 {
      assert (a + b)[1..] == b;
    } else {
      assert a + b == b;
    }
  }

  /** True when some fragment parsed; then (bestOffset, bestLen) is the first
      of the longest fragments, otherwise both are 0. */
  method TryExtractLargestJson(bytes: seq<byte>, lib: JsonLib) returns (found: bool, bestOffset: int, bestLen: int)
    ensures (bestOffset, bestLen) == Best(Candidates(bytes, lib), 0, 0)
    ensures found <==> |Candidates(bytes, lib)| > 0
    ensures !found ==> bestOffset == 0 && bestLen == 0
    ensures forall k :: 0 <= k < |Candidates(bytes, lib)| ==> Candidates(bytes, lib)[k].length <= bestLen
    ensures found ==>
      exists k :: 0 <= k < |Candidates(bytes, lib)| &&
        Candidates(bytes, lib)[k].offset == bestOffset && Candidates(bytes, lib)[k].length == bestLen &&
        forall m :: 0 <= m < k ==> Candidates(bytes, lib)[m].length < bestLen
  {
    ghost var all := Candidates(bytes, lib);
    bestOffset := 0;
    bestLen := 0;
    var i := 0;
    while i < |bytes|
      invariant 0 <= i <= |bytes|
      invariant Best(all, 0, 0) == Best(Scan(bytes, i, [], lib), bestOffset, bestLen)
      decreases |bytes| - i
    {
      var f, next := ScanStep(bytes, i, [], lib);
      BestConcat(FoundOf(f), Scan(bytes, next, [], lib), bestOffset, bestLen);
      if f.Some? {
        if f.value.length > bestLen {
          bestLen := f.value.length;
          bestOffset := f.value.offset;
        }
      }
      i := next;
    }
    found := bestLen > 0;
    BestIsFirstMaximum(all, 0, 0);
    ScanFragmentsValid(bytes, 0, [], lib);
    if |all| > 0 {
      assert all[0].length <= bestLen;
    }
  }

  // ---------------------------------------------------------------------------
  // ExtractPrintableStrings

  /** Each byte as the character with that code, as the cast (char)b does. */
  function Chars(bs: seq<byte>): (s: string)
    ensures |s| == |bs|
  {
    seq(|bs|, k requires 0 <= k < |bs| => bs[k] as char)
  }

  /** The local Flush: keep the run if it is long enough and new. */
  function Flush(results: seq<string>, run: string, minLen: int): seq<string>
  {
    if |run| >= minLen && run !in results then results + [run] else results
  }

  /** The strings harvested from bytes[i..], given the strings kept so far and
      the printable run that ends at i. The loop stops after a flush at a
      non-printable byte once maxItems strings are kept; a run is also cut
      when it exceeds MaxRun characters, and the last run is flushed at the
      end. */
  function StringsFrom(bytes: seq<byte>, i: int, minLen: int, maxItems: int, results: seq<string>, run: string): seq<string>
    requires 0 <= i <= |bytes|
    decreases |bytes| - i
  {
    if i == |bytes| then Flush(results, run, minLen)
    else if Printable(bytes[i]) then
      var run' := run + [bytes[i] as char];
      if |run'| > MaxRun then StringsFrom(bytes, i + 1, minLen, maxItems, Flush(results, run', minLen), "")
      else StringsFrom(bytes, i + 1, minLen, maxItems, results, run')
    else
      var rs := Flush(results, run, minLen);
      if |rs| >= maxItems then Flush(rs, "", minLen)
      else StringsFrom(bytes, i + 1, minLen, maxItems, rs, "")
  }

  method ExtractPrintableStrings(bytes: seq<byte>, minLen: int, maxItems: int) returns (r: Result<seq<string>>)
    ensures maxItems < 0 ==> r == Failure(OutOfRange)
    ensures maxItems >= 0 ==> r == Success(StringsFrom(bytes, 0, minLen, maxItems, [], ""))
    ensures r.Success? ==> Distinct(r.value) && forall k :: 0 <= k < |r.value| ==> Harvested(r.value[k], bytes, minLen)
  {
    if maxItems < 0 {
      return Failure(OutOfRange);
    }
    PrintableStringsHarvested(bytes, minLen, maxItems);
    var results: seq<string> := [];
    var sb: string := "";
    for i := 0 to |bytes|
      invariant StringsFrom(bytes, 0, minLen, maxItems, [], "") == StringsFrom(bytes, i, minLen, maxItems, results, sb)
    {
      var b := bytes[i];
      if b >= 32 && b <= 126 {
        sb := sb + [b as char];
        if |sb| > MaxRun {
          results := Flush(results, sb, minLen);
          sb := "";
        }
      } else {
        results := Flush(results, sb, minLen);
        sb := "";
        if |results| >= maxItems {
          results := Flush(results, sb, minLen);
          return Success(results);
        }
      }
    }
    results := Flush(results, sb, minLen);
    return Success(results);
  }

  predicate AllPrintable(s: string)
  {
    forall k :: 0 <= k < |s| ==> 32 <= s[k] as int <= 126
  }

  /** s is the text of some run of bytes. */
  predicate OccursIn(s: string, bytes: seq<byte>)
  {
    exists a :: 0 <= a <= |bytes| - |s| && TextAt(bytes, a, |s|) == s
  }

  function TextAt(bytes: seq<byte>, a: int, n: int): string
    requires 0 <= a && 0 <= n && a + n <= |bytes|
  {
    Chars(bytes[a..a + n])
  }

  predicate Distinct(ss: seq<string>)
  {
    forall k, l :: 0 <= k < l < |ss| ==> ss[k] != ss[l]
  }

  /** What every harvested string satisfies. */
  predicate Harvested(s: string, bytes: seq<byte>, minLen: int)
  {
    minLen <= |s| <= MaxRun + 1 && AllPrintable(s) && OccursIn(s, bytes)
  }

  /** No string twice, and every string harvested from bytes, built up as the
      results list is: each new string harvested and not yet kept. */
  predicate Kept(ss: seq<string>, bytes: seq<byte>, minLen: int)
    decreases |ss|
  {
    |ss| == 0 ||
    var init := ss[..|ss| - 1];
    Kept(init, bytes, minLen) && Harvested(ss[|ss| - 1], bytes, minLen) && ss[|ss| - 1] !in init
  }

  lemma {:induction false} KeptMeans(ss: seq<string>, bytes: seq<byte>, minLen: int)
    ensures Kept(ss, bytes, minLen) <==>
              Distinct(ss) && forall k :: 0 <= k < |ss| ==> Harvested(ss[k], bytes, minLen)
    decreases |ss|
  {
    if |ss| > 0 {
      var init := ss[..|ss| - 1];
      KeptMeans(init, bytes, minLen);
      assert forall k :: 0 <= k < |init| ==> init[k] == ss[k];
      if Distinct(ss) {
        assert ss[|ss| - 1] !in init by {
          forall k | 0 <= k < |init| ensures init[k] != ss[|ss| - 1] {
            assert ss[k] != ss[|ss| - 1];
          }
        }
      }
    }
  }

  predicate HarvestState(bytes: seq<byte>, i: int, minLen: int, results: seq<string>, run: string)
    requires 0 <= i <= |bytes|
  {
    |run| <= MaxRun && |run| <= i && run == Chars(bytes[i - |run|..i]) && AllPrintable(run) &&
    Kept(results, bytes, minLen)
  }

  lemma FlushKeeps(bytes: seq<byte>, i: int, minLen: int, results: seq<string>, run: string)
    requires 0 <= i <= |bytes| && |run| <= MaxRun + 1 && |run| <= i
    requires run == Chars(bytes[i - |run|..i]) && AllPrintable(run)
    requires Kept(results, bytes, minLen)
    ensures Kept(Flush(results, run, minLen), bytes, minLen)
  {
    if |run| >= minLen && run !in results {
      assert Harvested(run, bytes, minLen) by {
        assert TextAt(bytes, i - |run|, |run|) == run;
      }
      assert (results + [run])[..|results|] == results;
    }
  }

  lemma ExtendRun(bytes: seq<byte>, i: int, run: string)
    requires 0 <= i < |bytes| && |run| <= i && run == Chars(bytes[i - |run|..i])
    ensures run + [bytes[i] as char] == Chars(bytes[i + 1 - (|run| + 1)..i + 1])
  {
    var a := i - |run|;
    assert bytes[a..i + 1] == bytes[a..i] + [bytes[i]];
  }

  /** Every harvested string is printable, at least minLen and at most
      MaxRun + 1 characters long and the text of a run of the input; no
      string is kept twice. */
  lemma {:induction false} StringsFromHarvested(bytes: seq<byte>, i: int, minLen: int, maxItems: int,
                                                 results: seq<string>, run: string)
    requires 0 <= i <= |bytes| && HarvestState(bytes, i, minLen, results, run)
    ensures Kept(StringsFrom(bytes, i, minLen, maxItems, results, run), bytes, minLen)
    decreases |bytes| - i
  {
    var ss := StringsFrom(bytes, i, minLen, maxItems, results, run);
    if i == |bytes| {
      assert ss == Flush(results, run, minLen);
      FlushKeeps(bytes, i, minLen, results, run);
    } else if Printable(bytes[i]) {
      var run' := run + [bytes[i] as char];
      HarvestPrintable(bytes, i, minLen, results, run);
      if |run'| > MaxRun {
        var rs := Flush(results, run', minLen);
        assert ss == StringsFrom(bytes, i + 1, minLen, maxItems, rs, "");
        StringsFromHarvested(bytes, i + 1, minLen, maxItems, rs, "");
      } else {
        assert ss == StringsFrom(bytes, i + 1, minLen, maxItems, results, run');
        StringsFromHarvested(bytes, i + 1, minLen, maxItems, results, run');
      }
    } else {
      var rs := Flush(results, run, minLen);
      HarvestOther(bytes, i, minLen, results, run);
      if |rs| < maxItems {
        assert ss == StringsFrom(bytes, i + 1, minLen, maxItems, rs, "");
        StringsFromHarvested(bytes, i + 1, minLen, maxItems, rs, "");
      } else {
        assert ss == Flush(rs, "", minLen);
      }
    }
  }

  /** A printable byte extends the run, which is flushed once it is too long. */
  lemma HarvestPrintable(bytes: seq<byte>, i: int, minLen: int, results: seq<string>, run: string)
    requires 0 <= i < |bytes| && Printable(bytes[i]) && HarvestState(bytes, i, minLen, results, run)
    ensures var run' := run + [bytes[i] as char];
      if |run'| > MaxRun then HarvestState(bytes, i + 1, minLen, Flush(results, run', minLen), "")
      else HarvestState(bytes, i + 1, minLen, results, run')
  {
    ExtendRun(bytes, i, run);
    var run' := run + [bytes[i] as char];
    if |run'| > MaxRun {
      FlushKeeps(bytes, i + 1, minLen, results, run');
    }
  }

  /** Any other byte flushes the run; the flush after the last item keeps the
      results too. */
  lemma HarvestOther(bytes: seq<byte>, i: int, minLen: int, results: seq<string>, run: string)
    requires 0 <= i < |bytes| && HarvestState(bytes, i, minLen, results, run)
    ensures HarvestState(bytes, i + 1, minLen, Flush(results, run, minLen), "")
    ensures Kept(Flush(Flush(results, run, minLen), "", minLen), bytes, minLen)
  {
    FlushKeeps(bytes, i, minLen, results, run);
    FlushKeeps(bytes, i, minLen, Flush(results, run, minLen), "");
  }

  lemma PrintableStringsHarvested(bytes: seq<byte>, minLen: int, maxItems: int)
    ensures var ss := StringsFrom(bytes, 0, minLen, maxItems, [], "");
      Distinct(ss) && forall k :: 0 <= k < |ss| ==> Harvested(ss[k], bytes, minLen)
  {
    assert HarvestState(bytes, 0, minLen, [], "");
    StringsFromHarvested(bytes, 0, minLen, maxItems, [], "");
    KeptMeans(StringsFrom(bytes, 0, minLen, maxItems, [], ""), bytes, minLen);
  }
}
