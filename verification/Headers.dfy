/** JOSE headers (header.go): accessors, the header codec, disjoint merging and "crit". */
module Headers {
  import opened Outcomes
  import opened Keys
  import opened Primitives
  import opened Base64Url

  // ---------------------------------------------------------------- accessors

  /** Header.String: "" when the parameter is absent or not a string. */
  function StringParam(h: Header, name: string): string {
    if name in h && h[name].Str? then h[name].text else ""
  }

  /** A nil map reads as an empty one. */
  function OrEmpty(h: Option<Header>): Header {
    match h
    case Some(m) => m
    case None => map[]
  }

  /** copyHeaderOrNil: an empty header is left out of a document. */
  function OrNil(h: Header): Option<Header> {
    if h == map[] then None else Some(h)
  }

  /** An optional header after a trip through JSON. */
  function ReceivedHeader(p: Primitives, h: Option<Header>): Option<Header> {
    if h.Some? then Some(p.Received(h.value)) else None
  }

  function Texts(vs: seq<Value>): Option<seq<string>> {
    if forall i :: 0 <= i < |vs| ==> vs[i].Str?
    then Some(seq(|vs|, i requires 0 <= i < |vs| => vs[i].text))
    else None
  }

  /** Header.Critical: a list built in Go, or one decoded from JSON. */
  function Critical(h: Header): Option<seq<string>> {
    if "crit" !in h then None else
      match h["crit"]
      case Strings(list) => Some(list)
      case List(list) => Texts(list)
      case _ => None
  }

  /** The names that a header declares critical. */
  function DeclaredCritical(h: Header): seq<string> {
    if Critical(h).Some? then Critical(h).value else []
  }

  method CriticalScan(h: Header) returns (r: Option<seq<string>>)
    ensures r == Critical(h)
  {
    if "crit" !in h {
      return None;
    }
    match h["crit"]
    case Strings(list) =>
      return Some(list);
    case List(list) =>
      var out: seq<string> := [];
      for i := 0 to |list|
        invariant forall k :: 0 <= k < i ==> list[k].Str?
        invariant |out| == i && forall k :: 0 <= k < i ==> out[k] == list[k].text
      {
        if !list[i].Str? {
          return None;
        }
        out := out + [list[i].text];
      }
      assert out == Texts(list).value;
      return Some(out);
    case _ =>
      return None;
  }

  // ---------------------------------------------------------------- the header codec

  function EncodeHeader(p: Primitives, h: Header): Result<string> {
    match p.headerToJson(h)
    case Some(raw) => Ok(EncodeSegment(raw))
    case None => Err(InvalidHeader)
  }

  function DecodeHeader(p: Primitives, seg: string): Result<Header> {
    var raw :- DecodeSegment(seg);
    OrElse(p.headerFromJson(raw), Malformed)
  }

  lemma DecodeEncodedHeader(p: Primitives, h: Header)
    requires p.JsonLaw() && EncodeHeader(p, h).Ok?
    ensures DecodeHeader(p, EncodeHeader(p, h).value) == Ok(p.Received(h))
    ensures AllDigits(EncodeHeader(p, h).value) && EncodeHeader(p, h).value != ""
  {
    DecodeEncoded(p.headerToJson(h).value);
  }

  // ---------------------------------------------------------------- copying and merging

  /** copyHeader: one map, in which a later header wins. */
  function CopyHeader(hs: seq<Header>): Header {
    if hs == [] then map[] else CopyHeader(hs[..|hs| - 1]) + hs[|hs| - 1]
  }

  lemma CopyOfTwo(a: Header, b: Header)
    ensures CopyHeader([a]) == a && CopyHeader([a, b]) == a + b
  {
    assert [a][..0] == [] && map[] + a == a;
    assert [a, b][..1] == [a];
  }

  /** mergeHeaders: one map, or a refusal when a parameter is repeated. */
  function MergeHeaders(hs: seq<Header>): (r: Result<Header>)
    ensures r.Err? ==> r.error == InvalidHeader
  {
    if hs == [] then Ok(map[]) else
      var m :- MergeHeaders(hs[..|hs| - 1]);
      if m.Keys !! hs[|hs| - 1].Keys then Ok(m + hs[|hs| - 1]) else Err(InvalidHeader)
  }

  ghost predicate PairwiseDisjoint(hs: seq<Header>) {
    forall i, j :: 0 <= i < j < |hs| ==> hs[i].Keys !! hs[j].Keys
  }

  /** The merged view of hs: every parameter of every header, and no other. */
  ghost predicate IsUnion(m: Header, hs: seq<Header>) {
    && (forall i, k :: 0 <= i < |hs| && k in hs[i] ==> k in m && m[k] == hs[i][k])
    && (forall k :: k in m ==> exists i :: 0 <= i < |hs| && k in hs[i])
  }

  lemma {:induction false} MergeIsUnion(hs: seq<Header>)
    requires MergeHeaders(hs).Ok?
    ensures IsUnion(MergeHeaders(hs).value, hs)
  {
    if hs != [] {
      var front := hs[..|hs| - 1];
      MergeIsUnion(front);
      var m, last := MergeHeaders(front).value, hs[|hs| - 1];
      forall k | k in m + last
        ensures exists i :: 0 <= i < |hs| && k in hs[i]
      {
        if k in last {
          assert k in hs[|hs| - 1];
        } else {
          var i :| 0 <= i < |front| && k in front[i];
          assert k in hs[i];
        }
      }
      forall i, k | 0 <= i < |hs| && k in hs[i]
        ensures k in m + last && (m + last)[k] == hs[i][k]
      {
        if i < |front| {
          assert k in front[i];
        }
      }
    }
  }

  lemma {:induction false} MergeCovers(hs: seq<Header>, i: nat)
    requires MergeHeaders(hs).Ok? && i < |hs|
    ensures hs[i].Keys <= MergeHeaders(hs).value.Keys
    decreases |hs|
  {
    if i < |hs| - 1 {
      MergeCovers(hs[..|hs| - 1], i);
    }
  }

  lemma {:induction false} MergedAreDisjoint(hs: seq<Header>, i: nat, j: nat)
    requires MergeHeaders(hs).Ok? && i < j < |hs|
    ensures hs[i].Keys !! hs[j].Keys
    decreases |hs|
  {
    var front := hs[..|hs| - 1];
    if j < |front| {
      MergedAreDisjoint(front, i, j);
    } else {
      MergeCovers(front, i);
    }
  }

  lemma {:induction false} DisjointAreMerged(hs: seq<Header>)
    requires PairwiseDisjoint(hs)
    ensures MergeHeaders(hs).Ok?
  {
    if hs != [] {
      var front, last := hs[..|hs| - 1], hs[|hs| - 1];
      assert forall i :: 0 <= i < |front| ==> front[i] == hs[i];
      DisjointAreMerged(front);
      MergeIsUnion(front);
      var m := MergeHeaders(front).value;
      forall k | k in m
        ensures k !in last
      {
        var i :| 0 <= i < |front| && k in front[i];
        assert hs[i].Keys !! hs[|hs| - 1].Keys;
      }
    }
  }

  /** Merging succeeds exactly on headers that share no parameter name. */
  lemma MergeIffDisjoint(hs: seq<Header>)
    ensures MergeHeaders(hs).Ok? <==> PairwiseDisjoint(hs)
  {
    hide MergeHeaders;
    if MergeHeaders(hs).Ok? {
      forall i, j | 0 <= i < j < |hs|
        ensures hs[i].Keys !! hs[j].Keys
      {
        MergedAreDisjoint(hs, i, j);
      }
    }
    if PairwiseDisjoint(hs) {
      DisjointAreMerged(hs);
    }
  }

  /** Merging commutes with the trip through JSON. */
  lemma {:induction false} MergeReceived(p: Primitives, hs: seq<Header>, rs: seq<Header>)
    requires |rs| == |hs| && forall i :: 0 <= i < |hs| ==> rs[i] == p.Received(hs[i])
    requires MergeHeaders(hs).Ok?
    ensures MergeHeaders(rs) == Ok(p.Received(MergeHeaders(hs).value))
  {
    if hs != [] {
      MergeReceived(p, hs[..|hs| - 1], rs[..|rs| - 1]);
      var m, last := MergeHeaders(hs[..|hs| - 1]).value, hs[|hs| - 1];
      assert p.Received(m) + p.Received(last) == p.Received(m + last);
    }
  }

  lemma MergeTwo(a: Header, b: Header)
    ensures MergeHeaders([a, b]) == if a.Keys !! b.Keys then Ok(a + b) else Err(InvalidHeader)
  {
    assert [a][..0] == [] && map[] + a == a;
    assert MergeHeaders([a]) == Ok(a);
    assert [a, b][..1] == [a];
  }

  lemma MergeThree(a: Header, b: Header, c: Header)
    ensures MergeHeaders([a, b, c]) ==
            if a.Keys !! b.Keys && (a + b).Keys !! c.Keys then Ok(a + b + c) else Err(InvalidHeader)
  {
    MergeTwo(a, b);
    assert [a, b, c][..2] == [a, b];
  }

  lemma StringParamReceived(p: Primitives, h: Header, name: string)
    ensures StringParam(p.Received(h), name) == StringParam(h, name)
  {
  }

  lemma ReceivedSum(p: Primitives, a: Header, b: Header)
    ensures p.Received(a) + p.Received(b) == p.Received(a + b)
  {
  }

  lemma {:induction false} MergeFailsEarly(hs: seq<Header>, i: nat)
    requires i <= |hs| && MergeHeaders(hs[..i]).Err?
    ensures MergeHeaders(hs).Err?
    decreases |hs|
  {
    if i < |hs| {
      assert hs[..|hs| - 1][..i] == hs[..i];
      MergeFailsEarly(hs[..|hs| - 1], i);
    } else {
      assert hs[..i] == hs;
    }
  }

  /** A Go map that functions share by reference and write into. */
  class HeaderMap {
    var entries: Header

    constructor (h: Header)
      ensures entries == h
    {
      entries := h;
    }

    method Set(name: string, v: Value)
      modifies this
      ensures entries == old(entries)[name := v]
    {
      entries := entries[name := v];
    }
  }

  /** The nested loops; Go visits the entries of a map in any order. */
  method MergeHeadersLoop(hs: seq<Header>) returns (r: Result<Header>)
    ensures r == MergeHeaders(hs)
  {
    var out: Header := map[];
    for i := 0 to |hs|
      invariant MergeHeaders(hs[..i]) == Ok(out)
    {
      var h := hs[i];
      ghost var start := out;
      assert hs[..i + 1][..i] == hs[..i];
      var keys := h.Keys;
      while keys != {}
        invariant keys <= h.Keys
        invariant out.Keys == start.Keys + (h.Keys - keys)
        invariant start.Keys !! (h.Keys - keys)
        invariant forall k :: k in start ==> out[k] == start[k]
        invariant forall k :: k in h.Keys - keys ==> out[k] == h[k]
        decreases keys
      {
        var k :| k in keys;
        if k in out {
          assert k in start && k in hs[..i + 1][i];
          MergeFailsEarly(hs, i + 1);
          return Err(InvalidHeader);
        }
        out := out[k := h[k]];
        keys := keys - {k};
      }
      assert out == start + h;
    }
    assert hs[..|hs|] == hs;
    return Ok(out);
  }

  method CopyHeaderLoop(hs: seq<Header>) returns (out: Header)
    ensures out == CopyHeader(hs)
  {
    out := map[];
    for i := 0 to |hs|
      invariant out == CopyHeader(hs[..i])
    {
      var h := hs[i];
      ghost var start := out;
      assert hs[..i + 1][..i] == hs[..i];
      var keys := h.Keys;
      while keys != {}
        invariant keys <= h.Keys
        invariant out.Keys == start.Keys + (h.Keys - keys)
        invariant forall k :: k in h.Keys - keys ==> out[k] == h[k]
        invariant forall k :: k in start && k !in h.Keys - keys ==> out[k] == start[k]
        decreases keys
      {
        var k :| k in keys;
        out := out[k := h[k]];
        keys := keys - {k};
      }
      assert out == start + h;
    }
    assert hs[..|hs|] == hs;
  }

  // ---------------------------------------------------------------- "crit"

  /** The parameters of RFC 7515 and RFC 7516, which "crit" must not list. */
  predicate IsRegistered(name: string) {
    name in {"alg", "jku", "jwk", "kid", "x5u", "x5c", "x5t", "x5t#S256", "typ", "cty",
             "crit", "enc", "zip", "epk", "apu", "apv", "iv", "tag", "p2s", "p2c"}
  }

  /** The verdict on one listed name. */
  function CheckName(protected: Header, known: seq<string>, name: string): Outcome {
    if name == "" then Fail(InvalidCrit)
    else if IsRegistered(name) then Fail(InvalidCrit)
    else if name !in protected then Fail(UnprotectedCritical)
    else if name !in known then Fail(InvalidCrit)
    else Pass
  }

  /** The verdict on a list of names: the first complaint. */
  function CheckNames(protected: Header, known: seq<string>, names: seq<string>): Outcome {
    if names == [] then Pass else
      match CheckName(protected, known, names[0])
      case Fail(e) => Fail(e)
      case Pass => CheckNames(protected, known, names[1..])
  }

  function CheckCritical(protected: Header, known: seq<string>): Outcome {
    if "crit" !in protected then Pass else
      match Critical(protected)
      case None => Fail(InvalidCrit)
      case Some(crit) => if crit == [] then Fail(InvalidCrit) else CheckNames(protected, known, crit)
  }

  function CheckCriticalProduced(protected: Header): Outcome {
    if "crit" !in protected then Pass else
      match Critical(protected)
      case None => Fail(InvalidCrit)
      case Some(crit) => CheckCritical(protected, crit)
  }

  /** The loop of checkCritical, with its early returns. */
  method CheckCriticalLoop(protected: Header, known: seq<string>) returns (r: Outcome)
    ensures r == CheckCritical(protected, known)
  {
    var list := CriticalScan(protected);
    if "crit" in protected && list.None? {
      return Fail(InvalidCrit);
    }
    if list.None? {
      return Pass;
    }
    var crit := list.value;
    if |crit| == 0 {
      return Fail(InvalidCrit);
    }
    var i := 0;
    while i < |crit|
      invariant 0 <= i <= |crit|
      invariant CheckNames(protected, known, crit) == CheckNames(protected, known, crit[i..])
    {
      var name := crit[i];
      if name == "" {
        return Fail(InvalidCrit);
      }
      if IsRegistered(name) {
        return Fail(InvalidCrit);
      }
      if name !in protected {
        return Fail(UnprotectedCritical);
      }
      if name !in known {
        return Fail(InvalidCrit);
      }
      assert crit[i..][1..] == crit[i + 1..];
      i := i + 1;
    }
    return Pass;
  }

  /** checkCriticalProduced. */
  method CheckCriticalProducedSteps(protected: Header) returns (r: Outcome)
    ensures r == CheckCriticalProduced(protected)
  {
    hide CheckCritical;
    if "crit" !in protected {
      return Pass;
    }
    var crit := CriticalScan(protected);
    if crit.None? {
      return Fail(InvalidCrit);
    }
    r := CheckCriticalLoop(protected, crit.value);
  }

  /** A name that "crit" may list: an extension that the protected header carries. */
  ghost predicate Listable(protected: Header, name: string) {
    name != "" && !IsRegistered(name) && name in protected
  }

  lemma {:induction false} NamesAccepted(protected: Header, known: seq<string>, names: seq<string>)
    ensures CheckNames(protected, known, names).Pass? <==>
            forall n :: n in names ==> Listable(protected, n) && n in known
  {
    if names != [] {
      NamesAccepted(protected, known, names[1..]);
      assert names[0] in names && forall n :: n in names <==> n == names[0] || n in names[1..];
    }
  }

  /** What a recipient accepts, in terms of the header alone and the names it knows. */
  lemma CriticalAccepted(protected: Header, known: seq<string>)
    ensures CheckCritical(protected, known).Pass? <==>
            ("crit" in protected ==>
               && Critical(protected).Some? && Critical(protected).value != []
               && forall n :: n in Critical(protected).value ==> Listable(protected, n) && n in known)
  {
    if "crit" in protected && Critical(protected).Some? {
      NamesAccepted(protected, known, Critical(protected).value);
    }
  }

  /** A value that is a list of names, as Go builds it or as JSON shows it. */
  ghost predicate IsNameList(v: Value) {
    (v.Strings? && v.strings != []) || (v.List? && v.items != [] && forall i :: 0 <= i < |v.items| ==> v.items[i].Str?)
  }

  ghost predicate Lists(v: Value, name: string) {
    (v.Strings? && name in v.strings) || (v.List? && Str(name) in v.items)
  }

  /**
   Section 4.1.11 of RFC 7515: "crit" is a non-empty list of non-empty names, none of them a
   registered parameter, all present in the protected header and all understood.
   */
  ghost predicate IsUnderstood(protected: Header, known: seq<string>) {
    "crit" in protected ==>
      && IsNameList(protected["crit"])
      && forall n :: Lists(protected["crit"], n) ==>
           && n != "" && n in protected && n in known
           && n !in {"alg", "jku", "jwk", "kid", "x5u", "x5c", "x5t", "x5t#S256", "typ", "cty", "crit",
                     "enc", "zip", "epk", "apu", "apv", "iv", "tag", "p2s", "p2c"}
  }

  lemma ListedNames(protected: Header)
    requires "crit" in protected
    ensures IsNameList(protected["crit"]) <==> Critical(protected).Some? && Critical(protected).value != []
    ensures Critical(protected).Some? ==> forall n :: n in Critical(protected).value <==> Lists(protected["crit"], n)
  {
    match protected["crit"]
    case List(items) =>
      if Texts(items).Some? {
        var list := Texts(items).value;
        forall n
          ensures n in list <==> Str(n) in items
        {
          if n in list {
            var i :| 0 <= i < |list| && list[i] == n;
            assert items[i] == Str(n);
          }
          if Str(n) in items {
            var i :| 0 <= i < |items| && items[i] == Str(n);
            assert list[i] == n;
          }
        }
      }
    case _ =>
  }

  /** checkCritical accepts exactly the headers whose critical extensions are understood. */
  lemma CriticalIsUnderstood(protected: Header, known: seq<string>)
    ensures CheckCritical(protected, known).Pass? <==> IsUnderstood(protected, known)
  {
    hide CheckCritical, Critical, IsNameList, Lists;
    CriticalAccepted(protected, known);
    if "crit" in protected {
      ListedNames(protected);
    }
  }

  /** The producer accepts a header exactly when some recipient could. */
  lemma ProducedIsExact(protected: Header)
    ensures CheckCriticalProduced(protected).Pass? <==>
            exists known :: CheckCritical(protected, known).Pass?
  {
    if CheckCriticalProduced(protected).Pass? {
      var known := if "crit" in protected then Critical(protected).value else [];
      assert CheckCritical(protected, known).Pass?;
    }
    if known :| CheckCritical(protected, known).Pass? {
      CriticalAccepted(protected, known);
      if "crit" in protected {
        CriticalAccepted(protected, Critical(protected).value);
      }
    }
  }

  /** Knowing more names never turns acceptance into refusal. */
  lemma CriticalMonotone(protected: Header, known: seq<string>, more: seq<string>)
    requires CheckCritical(protected, known).Pass?
    requires forall n :: n in known ==> n in more
    ensures CheckCritical(protected, more).Pass?
  {
    CriticalAccepted(protected, known);
    CriticalAccepted(protected, more);
  }

  /** The trip through JSON keeps the meaning of "crit". */
  lemma CriticalReceived(p: Primitives, h: Header)
    ensures Critical(h).Some? ==> Critical(p.Received(h)) == Critical(h)
  {
    if "crit" in h {
      match h["crit"]
      case Strings(list) =>
        assert Texts(p.ReceivedValue(h["crit"]).items).value == list;
      case List(list) =>
        var items := p.ReceivedValue(h["crit"]).items;
        if Texts(list).Some? {
          assert Texts(items).value == Texts(list).value;
        }
      case _ =>
    }
  }

  /** What a producer accepts, its recipient accepts, if it knows the listed names. */
  lemma ProducedIsAccepted(p: Primitives, h: Header, known: seq<string>)
    requires CheckCriticalProduced(h).Pass?
    requires Critical(h).Some? ==> forall n :: n in Critical(h).value ==> n in known
    ensures CheckCritical(p.Received(h), known).Pass?
  {
    CriticalReceived(p, h);
    if "crit" in h {
      CriticalAccepted(h, Critical(h).value);
    }
    CriticalAccepted(p.Received(h), known);
  }

  // ---------------------------------------------------------------- headers, parameter by parameter

  /** The "kid", if it is a string. */
  function KidOf(h: Header): string {
    if "kid" in h && h["kid"].Str? then h["kid"].text else ""
  }

  /** Parameter n of the result is the caller's. */
  ghost predicate IsCallers(h: Header, given: Header, n: string) {
    (n in h <==> n in given) && (n in h ==> h[n] == given[n])
  }

  /** A producer may list as critical what some verifier could understand. */
  ghost predicate IsProducible(h: Header) {
    exists known :: IsUnderstood(h, known)
  }

  lemma ProducibleIs(h: Header)
    ensures CheckCriticalProduced(h).Pass? <==> IsProducible(h)
  {
    hide IsUnderstood, CheckCriticalProduced, CheckCritical;
    ProducedIsExact(h);
    forall known
      ensures CheckCritical(h, known).Pass? <==> IsUnderstood(h, known)
    {
      CriticalIsUnderstood(h, known);
    }
  }
}
