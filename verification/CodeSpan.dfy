/** Printing text as a Markdown code span, and reading such a span back. */
module CodeSpan {
  import opened Wrappers

  const TICK := '`'

  function OneLine(value: string): (text: string)
    ensures |text| == |value| && '\n' !in text
    ensures forall i | 0 <= i < |value| && value[i] != '\n' :: text[i] == value[i]
    ensures forall i | 0 <= i < |value| && value[i] == '\n' :: text[i] == ' '
  {
    seq(|value|, i requires 0 <= i < |value| => if value[i] == '\n' then ' ' else value[i])
  }

  function Ticks(n: nat): (r: string)
    ensures |r| == n && forall i | 0 <= i < n :: r[i] == '`'
  {
    seq(n, _ => TICK)
  }

  ghost predicate AllTicks(s: string, j: int, k: int) {
    0 <= j <= k <= |s| && forall i | j <= i < k :: s[i] == TICK
  }

  /** `m` is the length of the longest run of backticks. */
  ghost predicate LongestRun(s: string, n: nat, m: nat)
    requires n <= |s|
  {
    && (forall j, k | AllTicks(s, j, k) && k <= n :: k - j <= m)
    && (exists j, k :: AllTicks(s, j, k) && k <= n && k - j == m)
  }

  method MaxBacktickRun(text: string) returns (longest: nat)
    ensures LongestRun(text, |text|, longest)
  {
    longest := 0;
    var current: nat := 0;
    assert AllTicks(text, 0, 0);
    for i := 0 to |text|
      invariant current <= i && AllTicks(text, i - current, i)
      invariant current == i || text[i - current - 1] != TICK
      invariant LongestRun(text, i, longest) && current <= longest
    {
      if text[i] == TICK {
        current := current + 1;
        GrowRun(text, i, current, longest);
        longest := if longest < current then current else longest;
      } else {
        GrowNothing(text, i, longest);
        current := 0;
      }
    }
  }

  lemma GrowRun(s: string, i: nat, current: nat, longest: nat)
    requires i < |s| && LongestRun(s, i, longest) && 0 < current <= longest + 1 && current <= i + 1
    requires AllTicks(s, i + 1 - current, i + 1) && (current == i + 1 || s[i - current] != TICK)
    ensures LongestRun(s, i + 1, if longest < current then current else longest)
  {
  }

  lemma GrowNothing(s: string, i: nat, longest: nat)
    requires i < |s| && LongestRun(s, i, longest) && s[i] != TICK
    ensures LongestRun(s, i + 1, longest)
  {
  }

  predicate Touches(text: string) {
    text != "" && (text[0] == TICK || text[|text| - 1] == TICK)
  }

  /** `md_code_span`. */
  method MdCodeSpan(value: string) returns (span: string)
    ensures exists m: nat :: LongestRun(OneLine(value), |value|, m) && span == Spanned(OneLine(value), m + 1)
  {
    var text := OneLine(value);
    var longest := MaxBacktickRun(text);
    var delimiter := Ticks(longest + 1);
    assert LongestRun(OneLine(value), |value|, longest);
    if Touches(text) { text := " " + text + " "; }
    span := delimiter + text + delimiter;
  }

  function Padded(text: string): string {
    if Touches(text) then " " + text + " " else text
  }

  function Spanned(text: string, n: nat): string {
    Ticks(n) + Padded(text) + Ticks(n)
  }

  // Reading a code span (section 6.1 of CommonMark 0.31.2).

  /** The length of the run of backticks that starts at `i`. */
  function RunAt(s: string, i: nat): (r: nat)
    requires i <= |s|
    ensures i + r <= |s| && AllTicks(s, i, i + r)
    ensures i + r < |s| ==> s[i + r] != TICK
    decreases |s| - i
  {
    if i < |s| && s[i] == TICK then 1 + RunAt(s, i + 1) else 0
  }

  /** The first backtick string of length exactly `n` at or after `i`. */
  function FindClose(s: string, i: nat, n: nat): (r: Option<nat>)
    requires i <= |s|
    ensures r.Some? ==> i <= r.value && r.value + n <= |s|
    decreases |s| - i
  {
    if i == |s| then None
    else
      var run := RunAt(s, i);
      if run == 0 then FindClose(s, i + 1, n)
      else if run == n then Some(i)
      else FindClose(s, i + run, n)
  }

  predicate AllSpaces(s: string) {
    forall i | 0 <= i < |s| :: s[i] == ' '
  }

  predicate SpaceAtBothEnds(s: string) {
    s != "" && s[0] == ' ' && s[|s| - 1] == ' '
  }

  /** One space is removed from each end, unless the content is nothing but spaces. */
  function Stripped(content: string): string {
    if |content| >= 2 && SpaceAtBothEnds(content) && !AllSpaces(content) then content[1..|content| - 1] else content
  }

  /**
   * What a reader makes of the characters between the delimiters: a line ending, be it a line feed, a
   * carriage return or both (section 2.1), is a space, and a null is the replacement character (section 2.3).
   */
  function Content(s: string): string {
    if s == "" then ""
    else if |s| > 1 && s[0] == '\r' && s[1] == '\n' then " " + Content(s[2..])
    else if s[0] == '\r' || s[0] == '\n' then " " + Content(s[1..])
    else if s[0] == '\0' then "\U{FFFD}" + Content(s[1..])
    else [s[0]] + Content(s[1..])
  }

  /** The text of `s` read as one whole code span. */
  function Parse(s: string): Option<string> {
    var n := RunAt(s, 0);
    if n == 0 then None
    else
      match FindClose(s, n, n)
      case None => None
      case Some(close) => if close + n == |s| then Some(Stripped(Content(s[n..close]))) else None
  }

  // The round trip.

  lemma {:induction false} RunInside(d: nat, c: string, k: nat)
    requires k < |c| && c[|c| - 1] != TICK
    ensures var s := Ticks(d) + c + Ticks(d);
            RunAt(s, d + k) == RunAt(c, k) && k + RunAt(c, k) < |c|
    decreases |c| - k
  {
    var s := Ticks(d) + c + Ticks(d);
    assert s[d + k] == c[k];
    if c[k] == TICK { RunInside(d, c, k + 1); }
  }

  /** Shorter runs inside are passed over; the closing delimiter is found at the end. */
  lemma {:induction false} CloseIsFound(n: nat, c: string, m: nat, k: nat)
    requires 0 < n && m < n && LongestRun(c, |c|, m) && k <= |c| && c != "" && c[|c| - 1] != TICK
    ensures FindClose(Ticks(n) + c + Ticks(n), n + k, n) == Some(n + |c|)
    decreases |c| - k
  {
    var s := Ticks(n) + c + Ticks(n);
    if k == |c| {
      assert AllTicks(s, n + k, |s|);
    } else {
      RunInside(n, c, k);
      var run := RunAt(c, k);
      assert AllTicks(c, k, k + run);
      CloseIsFound(n, c, m, if run == 0 then k + 1 else k + run);
    }
  }

  lemma OpeningRun(n: nat, c: string)
    requires c != "" && c[0] != TICK
    ensures RunAt(Ticks(n) + c + Ticks(n), 0) == n
  {
    OpeningRunFrom(n, c, 0);
  }

  lemma {:induction false} OpeningRunFrom(n: nat, c: string, i: nat)
    requires c != "" && c[0] != TICK && i <= n
    ensures RunAt(Ticks(n) + c + Ticks(n), i) == n - i
    decreases n - i
  {
    var s := Ticks(n) + c + Ticks(n);
    assert s[n] == c[0];
    if i < n { OpeningRunFrom(n, c, i + 1); }
  }

  lemma PaddingAddsNoRun(text: string, m: nat)
    requires text != "" && LongestRun(text, |text|, m)
    ensures LongestRun(Padded(text), |Padded(text)|, m)
  {
    var p := Padded(text);
    if Touches(text) {
      forall j, k | AllTicks(p, j, k) ensures k - j <= m {
        if j < k {
          assert p[j] == TICK && p[k - 1] == TICK;
          assert AllTicks(text, j - 1, k - 1) by {
            forall i | j - 1 <= i < k - 1 ensures text[i] == TICK { assert p[i + 1] == TICK; }
          }
        }
      }
      var j, k :| AllTicks(text, j, k) && k <= |text| && k - j == m;
      assert AllTicks(p, j + 1, k + 1) by {
        forall i | j + 1 <= i < k + 1 ensures p[i] == TICK { assert p[i] == text[i - 1]; }
      }
    }
  }

  /** The reader finds what was put between the delimiters. */
  lemma SpanIsRead(text: string, m: nat)
    requires text != "" && LongestRun(text, |text|, m)
    ensures Parse(Spanned(text, m + 1)) == Some(Stripped(Content(Padded(text))))
  {
    var c, n := Padded(text), m + 1;
    PaddingEnds(text);
    SpannedIs(text, n);
    hide *;
    PaddingAddsNoRun(text, m);
    OpeningRun(n, c);
    CloseIsFound(n, c, m, 0);
    WholeSpan(n, c);
  }

  lemma PaddingEnds(text: string)
    requires text != ""
    ensures var c := Padded(text); c != "" && c[0] != TICK && c[|c| - 1] != TICK
  {
  }

  lemma SpannedIs(text: string, n: nat)
    ensures Spanned(text, n) == Ticks(n) + Padded(text) + Ticks(n)
  {
  }

  lemma WholeSpan(n: nat, c: string)
    requires n > 0 && RunAt(Ticks(n) + c + Ticks(n), 0) == n
    requires FindClose(Ticks(n) + c + Ticks(n), n, n) == Some(n + |c|)
    ensures Parse(Ticks(n) + c + Ticks(n)) == Some(Stripped(Content(c)))
  {
    hide RunAt, FindClose, Stripped, Content;
    assert (Ticks(n) + c + Ticks(n))[n..n + |c|] == c;
  }

  /** The characters a reader does not leave alone. */
  predicate Changed(c: char) { c == '\n' || c == '\r' || c == '\0' }

  predicate Unchanged(s: string) {
    forall i | 0 <= i < |s| :: !Changed(s[i])
  }

  lemma {:induction false} ContentIsUnchanged(s: string)
    ensures Unchanged(Content(s))
    ensures Unchanged(s) ==> Content(s) == s
  {
    if s != "" {
      ContentIsUnchanged(if |s| > 1 && s[0] == '\r' && s[1] == '\n' then s[2..] else s[1..]);
      assert s == [s[0]] + s[1..];
    }
  }

  lemma PaddingKeepsUnchanged(text: string)
    ensures Unchanged(text) <==> Unchanged(Padded(text))
  {
    if Touches(text) {
      var p := Padded(text);
      forall i | 0 <= i < |text| ensures text[i] == p[i + 1] {}
    }
  }

  lemma StrippedIsUnchanged(content: string)
    requires Unchanged(content)
    ensures Unchanged(Stripped(content))
  {
  }

  lemma StrippingUndoesPadding(text: string)
    requires text != ""
    ensures Stripped(Padded(text)) == text <==> !(SpaceAtBothEnds(text) && !AllSpaces(text))
  {
    var p := Padded(text);
    if Touches(text) {
      assert p[1..|p| - 1] == text;
      assert p[if text[0] == TICK then 1 else |p| - 2] == TICK;
    } else if SpaceAtBothEnds(text) && !AllSpaces(text) {
      assert |text| >= 2 by { if |text| == 1 { assert AllSpaces(text); } }
      assert |Stripped(text)| == |text| - 2;
    }
  }

  /**
   * The printed span reads back as the text, line feeds turned to spaces, exactly when that text is
   * nonempty, holds no carriage return and no null, and does not both begin and end with a space around
   * something else.
   */
  lemma RoundTripsExactly(value: string, m: nat)
    requires LongestRun(OneLine(value), |value|, m)
    ensures var text := OneLine(value);
            Parse(Spanned(text, m + 1)) == Some(text) <==>
            && text != ""
            && '\r' !in value && '\0' !in value
            && !(SpaceAtBothEnds(text) && !AllSpaces(text))
  {
    var text := OneLine(value);
    OneLineUnchanged(value);
    hide *;
    if text == "" {
      EmptySpan(m);
    } else {
      SpanIsRead(text, m);
      ReadBackExactly(text);
    }
  }

  lemma OneLineUnchanged(value: string)
    ensures Unchanged(OneLine(value)) <==> '\r' !in value && '\0' !in value
  {
    var text := OneLine(value);
    forall c | c == '\r' || c == '\0' ensures c in value <==> c in text {
      if c in value {
        var i :| 0 <= i < |value| && value[i] == c;
        assert text[i] == c;
      }
    }
  }

  lemma ReadBackExactly(text: string)
    requires text != ""
    ensures Stripped(Content(Padded(text))) == text <==>
            Unchanged(text) && !(SpaceAtBothEnds(text) && !AllSpaces(text))
  {
    ContentIsUnchanged(Padded(text));
    PaddingKeepsUnchanged(text);
    StrippedIsUnchanged(Content(Padded(text)));
    StrippingUndoesPadding(text);
    hide *;
  }

  /**
   * The printed span reads back as the very text that was printed exactly when that is nonempty, holds no line
   * feed, carriage return or null, and does not both begin and end with a space around something else.
   */
  lemma ReadsBackItself(value: string, m: nat)
    requires LongestRun(OneLine(value), |value|, m)
    ensures Parse(Spanned(OneLine(value), m + 1)) == Some(value) <==>
            && value != ""
            && '\n' !in value && '\r' !in value && '\0' !in value
            && !(SpaceAtBothEnds(value) && !AllSpaces(value))
  {
    var text := OneLine(value);
    RoundTripsExactly(value, m);
    if '\n' in value {
      var i :| 0 <= i < |value| && value[i] == '\n';
      SpanIsRead(text, m);
      ContentIsUnchanged(Padded(text));
      StrippedIsUnchanged(Content(Padded(text)));
      assert !Unchanged(value);
    } else {
      assert forall i | 0 <= i < |value| :: value[i] in value;
      assert text == value;
    }
  }

  /** Spaces at both ends around other text are lost: " a " reads back as "a". */
  lemma SpacesAreLost()
    ensures LongestRun(" a ", 3, 0) && Parse(Spanned(" a ", 1)) == Some("a")
  {
    var text := " a ";
    assert text[1] == 'a' && !AllSpaces(text) && text[1..2] == "a";
    ContentIsUnchanged(text);
    assert Stripped(text) == "a" && Padded(text) == text;
    ReadsAs(text, "a");
  }

  /** A carriage return is lost: it is not a line feed to the printer, but a line ending to the reader. */
  lemma CarriageReturnIsLost()
    ensures LongestRun("a\rb", 3, 0) && Parse(Spanned("a\rb", 1)) == Some("a b")
  {
    var text := "a\rb";
    assert Padded(text) == text;
    ContentOfThree('a', '\r', 'b');
    assert text == ['a', '\r', 'b'] && !SpaceAtBothEnds("a b");
    ReadsAs(text, "a b");
  }

  /** A null is lost: a reader replaces it. */
  lemma NullIsLost()
    ensures LongestRun("a\0b", 3, 0) && Parse(Spanned("a\0b", 1)) == Some("a\U{FFFD}b")
  {
    var text := "a\0b";
    assert Padded(text) == text;
    ContentOfThree('a', '\0', 'b');
    assert text == ['a', '\0', 'b'] && !SpaceAtBothEnds("a\U{FFFD}b");
    ReadsAs(text, "a\U{FFFD}b");
  }

  lemma ContentOfThree(x: char, y: char, z: char)
    requires !Changed(x) && Changed(y) && !Changed(z)
    ensures Content([x, y, z]) == [x, if y == '\0' then '\U{FFFD}' else ' ', z]
  {
    var s := [x, y, z];
    assert s[1..] == [y, z] && s[1..][1..] == [z] && s[1..][1..][1..] == "";
    assert Content([z]) == [z];
  }

  lemma ReadsAs(text: string, read: string)
    requires text != "" && Stripped(Content(Padded(text))) == read && forall i | 0 <= i < |text| :: text[i] != TICK
    ensures LongestRun(text, |text|, 0) && Parse(Spanned(text, 1)) == Some(read)
  {
    NoTicks(text);
    hide *;
    SpanIsRead(text, 0);
  }

  lemma NoTicks(text: string)
    requires forall i | 0 <= i < |text| :: text[i] != TICK
    ensures LongestRun(text, |text|, 0)
  {
    NoTicksUpTo(text, |text|);
  }

  lemma {:induction false} NoTicksUpTo(text: string, n: nat)
    requires n <= |text| && forall i | 0 <= i < |text| :: text[i] != TICK
    ensures LongestRun(text, n, 0)
  {
    assert AllTicks(text, 0, 0);
    if n > 0 {
      NoTicksUpTo(text, n - 1);
      GrowNothing(text, n - 1, 0);
    }
  }

  /** Empty text prints two adjacent delimiters, which read as one unclosed backtick string. */
  lemma EmptySpan(m: nat)
    ensures Parse(Spanned("", m + 1)) == None
  {
  }
}
