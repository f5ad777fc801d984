/** Scope prefixes read off nested Itanium-mangled names. */
module MangledNames {
  import opened Numerals
  import opened Wrappers

  /** What `isdigit` and `int` make of each character; `int` refuses some digits, such as superscripts. */
  datatype Reading = Reading(isDigit: char -> bool, value: char -> Option<nat>) {
    ghost predicate Standard() {
      forall c | IsDigit(c) :: isDigit(c) && value(c) == Some(DigitValue(c))
    }
  }

  const ASCII := Reading(c => IsDigit(c), c => if IsDigit(c) then Some(DigitValue(c)) else None)

  /** Any reading that agrees with decimal notation on '0' to '9'. */
  type Alphabet = u: Reading | u.Standard() witness ASCII

  predicate IsQualifier(c: char) { c in "KOVR" }

  function SkipQualifiers(s: string, i: nat): (r: nat)
    requires i <= |s|
    ensures i <= r <= |s|
    decreases |s| - i
  {
    if i < |s| && IsQualifier(s[i]) then SkipQualifiers(s, i + 1) else i
  }

  function DigitsEnd(u: Alphabet, s: string, i: nat): (r: nat)
    requires i <= |s|
    ensures i <= r <= |s| && forall k | i <= k < r :: u.isDigit(s[k])
    decreases |s| - i
  {
    if i < |s| && u.isDigit(s[i]) then DigitsEnd(u, s, i + 1) else i
  }

  /** `int` on a string of digits, if it accepts them all. */
  function Number(u: Alphabet, digits: string): Option<nat> {
    if digits == "" then Some(0)
    else
      match (Number(u, digits[..|digits| - 1]), u.value(digits[|digits| - 1]))
      case (Some(n), Some(d)) => Some(n * 10 + d)
      case _ => None
  }

  /** Where the length-prefixed component at `i` begins and ends, if a whole one is there. */
  function Component(u: Alphabet, s: string, i: nat): (r: Option<(nat, nat)>)
    requires i <= |s|
    ensures r.Some? ==> i < r.value.0 <= r.value.1 <= |s|
  {
    var j := DigitsEnd(u, s, i);
    if j == i then None
    else
      match Number(u, s[i..j])
      case None => None
      case Some(length) => if j + length <= |s| then Some((j, j + length)) else None
  }

  /** The candidates one nested marker gives: a scope prefix for each length-prefixed component. */
  function Scan(u: Alphabet, s: string, i: nat, prefix: string): seq<string>
    requires i <= |s|
    decreases |s| - i
  {
    match Component(u, s, i)
    case None => []
    case Some((j, next)) => [Extend(prefix, s[j..next])] + Scan(u, s, next, Extend(prefix, s[j..next]))
  }

  function Extend(prefix: string, component: string): string {
    prefix + component + "::"
  }

  function CandidatesFrom(u: Alphabet, s: string, marker: nat): seq<string>
    requires marker <= |s|
    decreases |s| - marker
  {
    if marker == |s| then []
    else
      var found := if s[marker] == 'N' then Scan(u, s, SkipQualifiers(s, marker + 1), "") else [];
      found + CandidatesFrom(u, s, marker + 1)
  }

  function Candidates(u: Alphabet, s: string): seq<string> {
    if "_Z" <= s then CandidatesFrom(u, s, 0) else []
  }

  /** `"::".join(scopes) + "::"`. */
  function Joined(scopes: seq<string>): string {
    if scopes == [] then "" else Extend(Joined(scopes[..|scopes| - 1]), scopes[|scopes| - 1])
  }

  /** `itanium_nested_scope_candidates`; it ends on every string. */
  method NestedScopeCandidates(u: Alphabet, symbol: string) returns (candidates: seq<string>)
    ensures candidates == Candidates(u, symbol)
    ensures forall c :: c in candidates <==>
              "_Z" <= symbol && exists marker: nat, i: nat, ids :: NestedAt(u, symbol, marker, i, ids) && c == Path(ids)
  {
    forall c {
      CandidatesExactly(u, symbol, c);
    }
    candidates := ScanMarkers(u, symbol);
  }

  method ScanMarkers(u: Alphabet, symbol: string) returns (candidates: seq<string>)
    ensures candidates == Candidates(u, symbol)
  {
    candidates := [];
    if !("_Z" <= symbol) { return; }
    for marker := 0 to |symbol|
      invariant candidates + CandidatesFrom(u, symbol, marker) == CandidatesFrom(u, symbol, 0)
    {
      MarkerAdds(u, symbol, marker, candidates);
      hide *;
      if symbol[marker] == 'N' {
        var found := ScanMarker(u, symbol, marker);
        candidates := candidates + found;
      }
    }
  }

  lemma MarkerAdds(u: Alphabet, s: string, marker: nat, candidates: seq<string>)
    requires marker < |s|
    ensures candidates + CandidatesFrom(u, s, marker) ==
            (if s[marker] == 'N' then candidates + Scan(u, s, SkipQualifiers(s, marker + 1), "") else candidates)
            + CandidatesFrom(u, s, marker + 1)
  {
    var found := if s[marker] == 'N' then Scan(u, s, SkipQualifiers(s, marker + 1), "") else [];
    assert CandidatesFrom(u, s, marker) == found + CandidatesFrom(u, s, marker + 1);
    hide *;
    assert candidates + (found + CandidatesFrom(u, s, marker + 1)) ==
        candidates + found + CandidatesFrom(u, s, marker + 1);
    assert candidates + [] == candidates;
  }

  /** The inner loops: qualifiers, then components until one is cut short. */
  method ScanMarker(u: Alphabet, symbol: string, marker: nat) returns (candidates: seq<string>)
    requires marker < |symbol|
    ensures candidates == Scan(u, symbol, SkipQualifiers(symbol, marker + 1), "")
  {
    var index := marker + 1;
    while index < |symbol| && IsQualifier(symbol[index])
      invariant index <= |symbol| && SkipQualifiers(symbol, index) == SkipQualifiers(symbol, marker + 1)
    {
      index := index + 1;
    }
    candidates := ScanComponents(u, symbol, index);
  }

  /** What the components from `i` on add completes the candidates of the whole scan. */
  ghost predicate Scanned(u: Alphabet, s: string, start: nat, i: nat, scopes: seq<string>, candidates: seq<string>) {
    start <= |s| && i <= |s| && candidates + Scan(u, s, i, Joined(scopes)) == Scan(u, s, start, "")
  }

  method ScanComponents(u: Alphabet, symbol: string, start: nat) returns (candidates: seq<string>)
    requires start <= |symbol|
    ensures candidates == Scan(u, symbol, start, "")
  {
    var index := start;
    candidates := [];
    var scopes: seq<string> := [];
    assert Scanned(u, symbol, start, index, scopes, candidates);
    hide *;
    while index < |symbol| && u.isDigit(symbol[index])
      invariant index <= |symbol| && Scanned(u, symbol, start, index, scopes, candidates)
      decreases |symbol| - index
    {
      var found := TakeComponent(u, symbol, index);
      ScanAdds(u, symbol, start, index, scopes, candidates);
      if found.None? { return; }
      scopes := scopes + [symbol[found.value.0..found.value.1]];
      candidates := candidates + [Joined(scopes)];
      index := found.value.1;
    }
  }

  /** The component at `index`; none if `int` refuses its length or it is cut short. */
  method TakeComponent(u: Alphabet, symbol: string, index: nat) returns (found: Option<(nat, nat)>)
    requires index < |symbol| && u.isDigit(symbol[index])
    ensures found == Component(u, symbol, index)
  {
    var j := EndOfDigits(u, symbol, index);
    var length := Number(u, symbol[index..j]);
    if length.None? || j + length.value > |symbol| { return None; }
    found := Some((j, j + length.value));
  }

  /** One whole component adds its prefix to the candidates; anything else ends the scan. */
  lemma ScanAdds(u: Alphabet, s: string, start: nat, i: nat, scopes: seq<string>, candidates: seq<string>)
    requires Scanned(u, s, start, i, scopes, candidates) && i < |s| && u.isDigit(s[i])
    ensures match Component(u, s, i)
            case None => start <= |s| && candidates == Scan(u, s, start, "")
            case Some((j, next)) =>
              Scanned(u, s, start, next, scopes + [s[j..next]], candidates + [Joined(scopes + [s[j..next]])])
  {
    hide Component, Extend;
    match Component(u, s, i)
    case None =>
    case Some((j, next)) =>
      var more := scopes + [s[j..next]];
      assert more[..|scopes|] == scopes;
      assert Joined(more) == Extend(Joined(scopes), s[j..next]);
  }

  method EndOfDigits(u: Alphabet, symbol: string, start: nat) returns (index: nat)
    requires start < |symbol| && u.isDigit(symbol[start])
    ensures index == DigitsEnd(u, symbol, start) && start < index
  {
    index := start;
    while index < |symbol| && u.isDigit(symbol[index])
      invariant start <= index <= |symbol| && DigitsEnd(u, symbol, index) == DigitsEnd(u, symbol, start)
    {
      index := index + 1;
    }
  }

  // Encoding (section 5.1 of the Itanium C++ ABI).

  /** Source names: each identifier behind its length. */
  function Encoded(ids: seq<string>): string {
    if ids == [] then "" else Digits(|ids[0]|) + ids[0] + Encoded(ids[1..])
  }

  ghost predicate Identifiers(u: Alphabet, ids: seq<string>) {
    forall k | 0 <= k < |ids| :: ids[k] != "" && !u.isDigit(ids[k][0])
  }

  lemma {:induction false} EndAfter(u: Alphabet, s: string, i: nat, j: nat)
    requires i <= j <= |s| && (j == |s| || !u.isDigit(s[j])) && forall k | i <= k < j :: u.isDigit(s[k])
    ensures DigitsEnd(u, s, i) == j
    decreases j - i
  {
    if i < j { EndAfter(u, s, i + 1, j); }
  }



  /** `JoinedAfter(p, ids)` is the prefix `p` with the given scopes appended. */
  function JoinedAfter(prefix: string, ids: seq<string>): string
    decreases |ids|
  {
    if ids == [] then prefix else JoinedAfter(Extend(prefix, ids[0]), ids[1..])
  }

  /** `part` stands in `s` at position `i`. */
  predicate StandsAt(s: string, i: nat, part: string) {
    i + |part| <= |s| && s[i..i + |part|] == part
  }

  lemma PartsStand(s: string, i: nat, a: string, b: string)
    requires StandsAt(s, i, a + b)
    ensures StandsAt(s, i, a) && StandsAt(s, i + |a|, b)
  {
    assert (a + b)[..|a|] == a && (a + b)[|a|..] == b;
    assert s[i..i + |a + b|][..|a|] == s[i..i + |a|];
    assert s[i..i + |a + b|][|a|..] == s[i + |a|..i + |a| + |b|];
  }

  lemma {:induction false} NumberOfDigits(u: Alphabet, n: nat)
    ensures Number(u, Digits(n)) == Some(n)
  {
    var d, last := Digits(n), '0' + (n % 10) as char;
    assert d[|d| - 1] == last && IsDigit(last) && DigitValue(last) == n % 10;
    if n < 10 {
      assert d[..|d| - 1] == "";
    } else {
      assert d[..|d| - 1] == Digits(n / 10);
      NumberOfDigits(u, n / 10);
    }
  }

  lemma DigitsStandBefore(u: Alphabet, s: string, i: nat, d: string, id: string)
    requires StandsAt(s, i, d) && StandsAt(s, i + |d|, id) && forall k | 0 <= k < |d| :: IsDigit(d[k])
    requires id != "" && !u.isDigit(id[0])
    ensures i + |d| < |s| && !u.isDigit(s[i + |d|]) && s[i..i + |d|] == d && s[i + |d|..i + |d| + |id|] == id
    ensures i + |d| + |id| <= |s| && forall k | i <= k < i + |d| :: u.isDigit(s[k])
  {
    assert s[i + |d|] == s[i + |d|..i + |d| + |id|][0];
    forall k | i <= k < i + |d| ensures u.isDigit(s[k]) { assert s[k] == s[i..i + |d|][k - i]; }
  }

  lemma OneComponent(u: Alphabet, s: string, i: nat, id: string)
    requires id != "" && !u.isDigit(id[0])
    requires StandsAt(s, i, Digits(|id|)) && StandsAt(s, i + |Digits(|id|)|, id)
    ensures var j := i + |Digits(|id|)|;
            j + |id| <= |s| && Component(u, s, i) == Some((j, j + |id|)) && s[j..j + |id|] == id
  {
    var d := Digits(|id|);
    hide *;
    DigitsStandBefore(u, s, i, d, id);
    EndAfter(u, s, i, i + |d|);
    NumberOfDigits(u, |id|);
  }

  /** The scan takes the first encoded component and goes on behind it. */
  lemma FirstComponent(u: Alphabet, s: string, i: nat, ids: seq<string>, prefix: string) returns (next: nat)
    requires Identifiers(u, ids) && ids != [] && StandsAt(s, i, Encoded(ids))
    ensures next <= |s| && StandsAt(s, next, Encoded(ids[1..])) && Identifiers(u, ids[1..])
    ensures Scan(u, s, i, prefix) == [Extend(prefix, ids[0])] + Scan(u, s, next, Extend(prefix, ids[0]))
  {
    var id, d, more := ids[0], Digits(|ids[0]|), Encoded(ids[1..]);
    next := i + |d| + |id|;
    hide *;
    EncodedUnfolds(u, ids);
    PartsStand(s, i, d + id, more);
    PartsStand(s, i, d, id);
    OneComponent(u, s, i, id);
    StandsWithin(s, next, more);
    ScanUnfolds(u, s, i, prefix, i + |d|, next);
  }

  lemma EncodedUnfolds(u: Alphabet, ids: seq<string>)
    requires Identifiers(u, ids) && ids != []
    ensures Encoded(ids) == Digits(|ids[0]|) + ids[0] + Encoded(ids[1..])
    ensures Identifiers(u, ids[1..]) && ids[0] != "" && !u.isDigit(ids[0][0])
  {
  }

  lemma ScanUnfolds(u: Alphabet, s: string, i: nat, prefix: string, j: nat, next: nat)
    requires i <= |s| && Component(u, s, i) == Some((j, next))
    ensures Scan(u, s, i, prefix) == [Extend(prefix, s[j..next])] + Scan(u, s, next, Extend(prefix, s[j..next]))
  {
  }

  lemma StandsWithin(s: string, i: nat, part: string)
    requires StandsAt(s, i, part)
    ensures i <= |s|
  {
  }

  /** Scanning an encoding gives the prefix for every initial part of the scope path. */
  lemma {:induction false} ScanFindsPrefixes(u: Alphabet, s: string, i: nat, ids: seq<string>, prefix: string, n: nat)
    requires Identifiers(u, ids) && 0 < n <= |ids| && StandsAt(s, i, Encoded(ids))
    ensures i <= |s| && JoinedAfter(prefix, ids[..n]) in Scan(u, s, i, prefix)
    decreases |ids|
  {
    StandsWithin(s, i, Encoded(ids));
    hide *;
    var next := FirstComponent(u, s, i, ids, prefix);
    var longer := Extend(prefix, ids[0]);
    JoinFirst(prefix, ids, n);
    if n == 1 {
      assert ids[1..][..0] == [];
    } else {
      ScanFindsPrefixes(u, s, next, ids[1..], longer, n - 1);
    }
  }

  lemma JoinFirst(prefix: string, ids: seq<string>, n: nat)
    requires 0 < n <= |ids|
    ensures JoinedAfter(prefix, ids[..n]) == JoinedAfter(Extend(prefix, ids[0]), ids[1..][..n - 1])
  {
    assert ids[..n][1..] == ids[1..][..n - 1];
  }

  lemma {:induction false} QualifiersSkipped(s: string, i: nat, j: nat)
    requires i <= j <= |s| && (j == |s| || !IsQualifier(s[j])) && forall k | i <= k < j :: IsQualifier(s[k])
    ensures SkipQualifiers(s, i) == j
    decreases j - i
  {
    if i < j { QualifiersSkipped(s, i + 1, j); }
  }

  lemma {:induction false} FoundAtMarker(u: Alphabet, s: string, from: nat, marker: nat, c: string)
    requires from <= marker < |s| && s[marker] == 'N' && c in Scan(u, s, SkipQualifiers(s, marker + 1), "")
    ensures c in CandidatesFrom(u, s, from)
    decreases marker - from
  {
    hide *;
    UnfoldsAt(u, s, from);
    if from < marker { FoundAtMarker(u, s, from + 1, marker, c); }
  }

  lemma UnfoldsAt(u: Alphabet, s: string, marker: nat)
    requires marker < |s|
    ensures forall c | c in CandidatesFrom(u, s, marker + 1) :: c in CandidatesFrom(u, s, marker)
    ensures s[marker] == 'N' ==>
              forall c | c in Scan(u, s, SkipQualifiers(s, marker + 1), "") :: c in CandidatesFrom(u, s, marker)
  {
    hide Scan, SkipQualifiers;
  }

  lemma {:induction false} JoinedAgree(prefix: string, ids: seq<string>)
    ensures JoinedAfter(prefix, ids) == prefix + Joined(ids)
  {
    if ids != [] {
      var n := |ids| - 1;
      JoinedAgree(prefix, ids[..n]);
      AfterLast(prefix, ids);
    }
  }

  lemma {:induction false} AfterLast(prefix: string, ids: seq<string>)
    requires ids != []
    ensures JoinedAfter(prefix, ids) == Extend(JoinedAfter(prefix, ids[..|ids| - 1]), ids[|ids| - 1])
    decreases |ids|
  {
    hide Extend;
    if |ids| > 1 {
      AfterLast(Extend(prefix, ids[0]), ids[1..]);
      assert ids[1..][..|ids| - 2] == ids[..|ids| - 1][1..];
    } else {
      assert ids[..0] == [];
      assert JoinedAfter(prefix, ids) == JoinedAfter(Extend(prefix, ids[0]), []);
    }
  }

  /**
   * Round trip: a nested name with any qualifiers and any continuation gives, among its candidates,
   * the scope prefix of every enclosing scope.
   */
  lemma EncodedScopesAreFound(u: Alphabet, qualifiers: string, ids: seq<string>, rest: string, n: nat)
    requires Identifiers(u, ids) && 0 < n <= |ids|
    requires forall k | 0 <= k < |qualifiers| :: IsQualifier(qualifiers[k])
    ensures Joined(ids[..n]) in Candidates(u, "_ZN" + qualifiers + Encoded(ids) + rest)
  {
    var e := Encoded(ids);
    var s, i := "_ZN" + qualifiers + e + rest, 3 + |qualifiers|;
    hide *;
    FirstIsDigit(u, ids);
    Parts(qualifiers, e, rest);
    QualifiersSkipped(s, 3, i);
    ScanFindsPrefixes(u, s, i, ids, "", n);
    JoinedFromNone(ids[..n]);
    FoundAtMarker(u, s, 0, 2, Joined(ids[..n]));
    CandidatesAre(u, s);
  }

  lemma JoinedFromNone(ids: seq<string>)
    ensures JoinedAfter("", ids) == Joined(ids)
  {
    JoinedAgree("", ids);
    hide JoinedAfter, Joined;
    assert "" + Joined(ids) == Joined(ids);
  }

  lemma CandidatesAre(u: Alphabet, s: string)
    requires "_Z" <= s
    ensures Candidates(u, s) == CandidatesFrom(u, s, 0)
  {
  }

  lemma Parts(qualifiers: string, e: string, rest: string)
    requires e != ""
    ensures var s, i := "_ZN" + qualifiers + e + rest, 3 + |qualifiers|;
            && "_Z" <= s && |s| > i && s[2] == 'N' && s[i] == e[0] && StandsAt(s, i, e)
            && forall k | 3 <= k < i :: s[k] == qualifiers[k - 3]
  {
  }

  lemma FirstIsDigit(u: Alphabet, ids: seq<string>)
    requires ids != []
    ensures Encoded(ids) != "" && u.isDigit(Encoded(ids)[0]) && !IsQualifier(Encoded(ids)[0])
  {
  }

  // The candidates without the scan.

  /** From `i` on, up to `j`, stands a whole run of digits that reads as `length`. */
  ghost predicate LengthAt(u: Alphabet, s: string, i: nat, j: nat, length: nat) {
    && i < j <= |s| && (forall k | i <= k < j :: u.isDigit(s[k])) && (j == |s| || !u.isDigit(s[j]))
    && Number(u, s[i..j]) == Some(length)
  }

  /** From `i` on stand the names, each behind its length. */
  ghost predicate Spelled(u: Alphabet, s: string, i: nat, ids: seq<string>)
    decreases |ids|
  {
    ids != [] ==>
      exists j: nat ::
        LengthAt(u, s, i, j, |ids[0]|) && StandsAt(s, j, ids[0]) && Spelled(u, s, j + |ids[0]|, ids[1..])
  }

  /** The names as a scope prefix. */
  function Path(ids: seq<string>): string {
    if ids == [] then "" else ids[0] + "::" + Path(ids[1..])
  }

  /** A nested name at a marker: qualifiers, as many as there are, and then the names. */
  ghost predicate NestedAt(u: Alphabet, s: string, marker: nat, i: nat, ids: seq<string>) {
    && marker < i <= |s| && s[marker] == 'N'
    && (forall k | marker < k < i :: s[k] == 'K' || s[k] == 'V' || s[k] == 'O' || s[k] == 'R')
    && (i == |s| || (s[i] != 'K' && s[i] != 'V' && s[i] != 'O' && s[i] != 'R'))
    && ids != [] && Spelled(u, s, i, ids)
  }

  lemma ComponentExactly(u: Alphabet, s: string, i: nat, j: nat, next: nat)
    requires i <= |s|
    ensures Component(u, s, i) == Some((j, next)) <==> j <= next <= |s| && LengthAt(u, s, i, j, next - j)
  {
    if j <= next <= |s| && LengthAt(u, s, i, j, next - j) { EndAfter(u, s, i, j); }
    hide Number;
    EndIsMaximal(u, s, i);
  }

  lemma {:induction false} EndIsMaximal(u: Alphabet, s: string, i: nat)
    requires i <= |s|
    ensures var j := DigitsEnd(u, s, i); j == |s| || !u.isDigit(s[j])
    decreases |s| - i
  {
    if i < |s| && u.isDigit(s[i]) { EndIsMaximal(u, s, i + 1); }
  }

  lemma {:induction false} QualifiersAreMaximal(s: string, i: nat)
    requires i <= |s|
    ensures var j := SkipQualifiers(s, i);
            (j == |s| || !IsQualifier(s[j])) && forall k | i <= k < j :: IsQualifier(s[k])
    decreases |s| - i
  {
    if i < |s| && IsQualifier(s[i]) { QualifiersAreMaximal(s, i + 1); }
  }

  ghost predicate FromNames(u: Alphabet, s: string, i: nat, prefix: string, c: string, ids: seq<string>) {
    ids != [] && Spelled(u, s, i, ids) && c == prefix + Path(ids)
  }

  /** The scan gives exactly the prefixes of the names that are spelled out there. */
  lemma {:induction false} ScanExactly(u: Alphabet, s: string, i: nat, prefix: string, c: string)
    requires i <= |s|
    ensures c in Scan(u, s, i, prefix) <==> exists ids :: FromNames(u, s, i, prefix, c, ids)
    decreases |s| - i
  {
    if c in Scan(u, s, i, prefix) { ScanIsSound(u, s, i, prefix, c); }
    if ids :| FromNames(u, s, i, prefix, c, ids) { ScanIsComplete(u, s, i, prefix, c, ids); }
  }

  lemma FirstScanned(u: Alphabet, s: string, i: nat, prefix: string, c: string) returns (j: nat, next: nat)
    requires i <= |s| && c in Scan(u, s, i, prefix)
    ensures Component(u, s, i) == Some((j, next)) && i < next && j <= next <= |s|
    ensures c == Extend(prefix, s[j..next]) || c in Scan(u, s, next, Extend(prefix, s[j..next]))
  {
    hide Component, Extend;
    var found := Component(u, s, i).value;
    j, next := found.0, found.1;
  }

  lemma StandsThere(s: string, j: nat, next: nat, name: string)
    requires j <= next <= |s| && name == s[j..next]
    ensures StandsAt(s, j, name)
  {
  }

  lemma {:induction false} ScanIsSound(u: Alphabet, s: string, i: nat, prefix: string, c: string)
    requires i <= |s| && c in Scan(u, s, i, prefix)
    ensures exists ids :: FromNames(u, s, i, prefix, c, ids)
    decreases |s| - i
  {
    hide *;
    var j, next := FirstScanned(u, s, i, prefix, c);
    var name, longer := s[j..next], Extend(prefix, s[j..next]);
    ComponentExactly(u, s, i, j, next);
    StandsThere(s, j, next, name);
    if c == longer {
      LastName(u, s, i, j, prefix, name);
    } else {
      ScanIsSound(u, s, next, longer, c);
      var ids :| FromNames(u, s, next, longer, c, ids);
      OneMoreName(u, s, i, j, prefix, c, name, ids);
    }
  }

  lemma LastName(u: Alphabet, s: string, i: nat, j: nat, prefix: string, name: string)
    requires LengthAt(u, s, i, j, |name|) && StandsAt(s, j, name)
    ensures FromNames(u, s, i, prefix, Extend(prefix, name), [name])
  {
    assert [name][1..] == [];
    assert Spelled(u, s, j + |name|, []);
    hide LengthAt, StandsAt;
    assert Path([name]) == name + "::";
  }

  lemma PathBegins(prefix: string, name: string, ids: seq<string>)
    ensures prefix + Path([name] + ids) == Extend(prefix, name) + Path(ids)
  {
    var all := [name] + ids;
    assert all[0] == name && all[1..] == ids;
    assert prefix + (name + "::" + Path(ids)) == Extend(prefix, name) + Path(ids);
  }

  lemma OneMoreName(u: Alphabet, s: string, i: nat, j: nat, prefix: string, c: string, name: string, ids: seq<string>)
    requires LengthAt(u, s, i, j, |name|) && StandsAt(s, j, name)
    requires FromNames(u, s, j + |name|, Extend(prefix, name), c, ids)
    ensures FromNames(u, s, i, prefix, c, [name] + ids)
  {
    var all := [name] + ids;
    assert all[0] == name && all[1..] == ids;
    hide LengthAt, StandsAt, Path, Extend;
    assert Spelled(u, s, i, all);
    hide Spelled;
    PathBegins(prefix, name, ids);
  }

  lemma FirstName(u: Alphabet, s: string, i: nat, prefix: string, c: string, ids: seq<string>) returns (j: nat)
    requires FromNames(u, s, i, prefix, c, ids) && ids != []
    ensures LengthAt(u, s, i, j, |ids[0]|) && j + |ids[0]| <= |s| && s[j..j + |ids[0]|] == ids[0]
    ensures c == prefix + Path(ids) && Spelled(u, s, j + |ids[0]|, ids[1..])
  {
    hide LengthAt, Path;
    j :| LengthAt(u, s, i, j, |ids[0]|) && StandsAt(s, j, ids[0]) && Spelled(u, s, j + |ids[0]|, ids[1..]);
  }

  lemma NamesUnfold(u: Alphabet, s: string, i: nat, prefix: string, c: string, ids: seq<string>)
    requires FromNames(u, s, i, prefix, c, ids)
    ensures |ids| == 1 ==> c == Extend(prefix, ids[0])
  {
    if |ids| == 1 { assert ids[1..] == [] && Path(ids) == ids[0] + "::" + ""; }
  }

  lemma NamesFollow(u: Alphabet, s: string, next: nat, prefix: string, c: string, ids: seq<string>)
    requires ids != [] && ids[1..] != [] && c == prefix + Path(ids) && Spelled(u, s, next, ids[1..])
    ensures FromNames(u, s, next, Extend(prefix, ids[0]), c, ids[1..])
  {
    hide Spelled;
    assert prefix + (ids[0] + "::" + Path(ids[1..])) == Extend(prefix, ids[0]) + Path(ids[1..]);
  }

  /** The scan takes the first name, and the candidate is its prefix or comes from the names behind it. */
  lemma FirstTaken(u: Alphabet, s: string, i: nat, prefix: string, c: string, ids: seq<string>) returns (next: nat)
    requires i <= |s| && FromNames(u, s, i, prefix, c, ids) && ids != []
    ensures var longer := Extend(prefix, ids[0]);
            && next <= |s| && Scan(u, s, i, prefix) == [longer] + Scan(u, s, next, longer)
            && (ids[1..] == [] ==> c == longer)
            && (ids[1..] != [] ==> FromNames(u, s, next, longer, c, ids[1..]))
  {
    hide *;
    var j := FirstName(u, s, i, prefix, c, ids);
    next := j + |ids[0]|;
    ComponentExactly(u, s, i, j, next);
    ScanUnfolds(u, s, i, prefix, j, next);
    if ids[1..] != [] { NamesFollow(u, s, next, prefix, c, ids); } else { NamesUnfold(u, s, i, prefix, c, ids); }
  }

  lemma {:induction false} ScanIsComplete(u: Alphabet, s: string, i: nat, prefix: string, c: string, ids: seq<string>)
    requires i <= |s| && FromNames(u, s, i, prefix, c, ids) && ids != []
    ensures c in Scan(u, s, i, prefix)
    decreases |ids|
  {
    hide *;
    var next := FirstTaken(u, s, i, prefix, c, ids);
    if ids[1..] != [] { ScanIsComplete(u, s, next, Extend(prefix, ids[0]), c, ids[1..]); }
  }

  lemma {:induction false} FoundSomewhere(u: Alphabet, s: string, from: nat, c: string) returns (marker: nat)
    requires from <= |s| && c in CandidatesFrom(u, s, from)
    ensures from <= marker < |s| && s[marker] == 'N' && c in Scan(u, s, SkipQualifiers(s, marker + 1), "")
    decreases |s| - from
  {
    hide Scan;
    marker := from;
    if !(s[from] == 'N' && c in Scan(u, s, SkipQualifiers(s, from + 1), "")) {
      marker := FoundSomewhere(u, s, from + 1, c);
    }
  }

  lemma CandidateIsNested(u: Alphabet, s: string, c: string) returns (marker: nat, i: nat, ids: seq<string>)
    requires c in CandidatesFrom(u, s, 0)
    ensures NestedAt(u, s, marker, i, ids) && c == Path(ids)
  {
    hide Scan, Spelled, CandidatesFrom;
    marker := FoundSomewhere(u, s, 0, c);
    i := SkipQualifiers(s, marker + 1);
    QualifiersAreMaximal(s, marker + 1);
    hide SkipQualifiers;
    ScanExactly(u, s, i, "", c);
    ids :| FromNames(u, s, i, "", c, ids);
    assert "" + Path(ids) == Path(ids);
  }

  lemma NestedIsCandidate(u: Alphabet, s: string, marker: nat, i: nat, ids: seq<string>)
    requires NestedAt(u, s, marker, i, ids)
    ensures Path(ids) in CandidatesFrom(u, s, 0)
  {
    hide Scan, Spelled, CandidatesFrom;
    QualifiersSkipped(s, marker + 1, i);
    assert "" + Path(ids) == Path(ids);
    assert FromNames(u, s, i, "", Path(ids), ids);
    hide Path;
    ScanExactly(u, s, i, "", Path(ids));
    FoundAtMarker(u, s, 0, marker, Path(ids));
  }

  lemma NotMangled(u: Alphabet, s: string)
    requires !("_Z" <= s)
    ensures Candidates(u, s) == []
  {
  }

  /**
   * A string is a candidate if and only if the symbol is mangled and somewhere behind a nested marker and its
   * qualifiers whole names stand, each behind its length, whose scope prefix it is.
   */
  lemma CandidatesExactly(u: Alphabet, s: string, c: string)
    ensures c in Candidates(u, s) <==>
            "_Z" <= s && exists marker: nat, i: nat, ids :: NestedAt(u, s, marker, i, ids) && c == Path(ids)
  {
    hide *;
    if "_Z" <= s {
      CandidatesAre(u, s);
      if c in Candidates(u, s) {
        var marker, i, ids := CandidateIsNested(u, s, c);
      }
      if marker: nat, i: nat, ids :| NestedAt(u, s, marker, i, ids) && c == Path(ids) {
        NestedIsCandidate(u, s, marker, i, ids);
      }
    } else {
      NotMangled(u, s);
    }
  }
}
