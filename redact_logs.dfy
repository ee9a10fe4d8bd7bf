/**
  Redaction of webhook logs before they are stored or shown.

  The log string is rewritten by an ordered list of substitutions, each one
  applied to the output of the previous one: the two built-in header rules,
  then the caller's pattern rules, then one rule per non-blank secret value,
  which replaces every occurrence of the value by eight asterisks.
*/
module RedactLogs {

  /** What a redacted header value becomes. */
  const Redacted: string := "[REDACTED]"

  /** What every occurrence of a secret value becomes. */
  const Mask: string := "********"

  // ---------------------------------------------------------------------------
  // Substitutions
  // ---------------------------------------------------------------------------

  /** The two built-in header rules, by the header marker they look for. */
  datatype Header = Authorization | Token

  /** The marker text of a header rule, matched without regard to letter case. */
  function Marker(h: Header): (m: string)
    ensures |m| > 0 && '\n' !in m
  {
    match h
    case Authorization => "Authorization: "
    case Token => "Token: "
  }

  /** A literal find/replace pair, as built for each secret value. */
  datatype Replacement = Replacement(find: string, replace: string)

  /**
    One step of the pipeline. A caller's pattern substitution is a regular
    expression and a replacement template; here it is the rewrite it performs.
  */
  datatype Rule =
    | HeaderRule(header: Header)
    | PatternRule(rewrite: string -> string)
    | LiteralRule(sub: Replacement)

  /** The built-in header substitutions, in the order they run. */
  const HeaderSubstitutions: seq<Rule> := [HeaderRule(Authorization), HeaderRule(Token)]

  function Apply(rule: Rule, s: string): string
  {
    match rule
    case HeaderRule(h) => RedactHeader(Marker(h), s)
    case PatternRule(f) => f(s)
    case LiteralRule(Replacement(find, replace)) => ReplaceAll(s, find, replace)
  }

  /** Runs the rules left to right, each on the previous rule's output. */
  function ApplyAll(rules: seq<Rule>, s: string): string
    decreases |rules|
  {
    if rules == [] then s else ApplyAll(rules[1..], Apply(rules[0], s))
  }

  // ---------------------------------------------------------------------------
  // Entry points
  // ---------------------------------------------------------------------------

  /** Redacts `logs`: header rules, then the caller's patterns, then the values. */
  function Call(logs: string, values: seq<string>, patterns: seq<string -> string> := []): string
  {
    ApplyAll(HeaderSubstitutions + PatternRules(patterns) + LiteralRules(ValueSubstitutions(values)), logs)
  }

  /** The instance-level entry point, which delegates to `Call`. */
  function RedactLogs(logs: string, values: seq<string>, patterns: seq<string -> string> := []): (r: string)
    ensures r == Call(logs, values, patterns)
  {
    Call(logs, values, patterns)
  }

  function PatternRules(patterns: seq<string -> string>): (rules: seq<Rule>)
    ensures |rules| == |patterns|
    ensures forall i :: 0 <= i < |rules| ==> rules[i].PatternRule? && rules[i].rewrite == patterns[i]
  {
    seq(|patterns|, i requires 0 <= i < |patterns| => PatternRule(patterns[i]))
  }

  function LiteralRules(subs: seq<Replacement>): (rules: seq<Rule>)
    ensures |rules| == |subs|
    ensures forall i :: 0 <= i < |rules| ==> rules[i] == LiteralRule(subs[i])
  {
    seq(|subs|, i requires 0 <= i < |subs| => LiteralRule(subs[i]))
  }

  // ---------------------------------------------------------------------------
  // Value substitutions
  // ---------------------------------------------------------------------------

  predicate IsSpace(c: char)
  {
    c == ' ' || c == '\t' || c == '\n' || c == '\r' || c == '\U{0C}' || c == '\U{0B}'
  }

  /** A string is not blank when it holds at least one non-whitespace character. */
  predicate NotBlank(s: string)
  {
    exists k :: 0 <= k < |s| && !IsSpace(s[k])
  }

  /** One substitution to `Mask` per non-blank value, in the order of `values`. */
  function ValueSubstitutions(values: seq<string>): (subs: seq<Replacement>)
    ensures |subs| <= |values|
    ensures forall s :: s in subs ==> s.find in values && NotBlank(s.find) && s.replace == Mask
    ensures forall v :: v in values && NotBlank(v) ==> Replacement(v, Mask) in subs
  {
    if values == [] then []
    else
      var rest := ValueSubstitutions(values[1..]);
      if NotBlank(values[0]) then [Replacement(values[0], Mask)] + rest else rest
  }

  /** The substitutions for two lists of values, one after the other, keep that order. */
  lemma {:induction false} ValueSubstitutionsAppend(a: seq<string>, b: seq<string>)
    ensures ValueSubstitutions(a + b) == ValueSubstitutions(a) + ValueSubstitutions(b)
    decreases |a|
  {
    if a != [] {
      assert (a + b)[1..] == a[1..] + b;
      ValueSubstitutionsAppend(a[1..], b);
    } else {
      assert a + b == b;
    }
  }

  /** A single value gets one substitution to the mask when it is not blank, and none when it is. */
  lemma ValueSubstitutionsOne(v: string)
    ensures NotBlank(v) ==> ValueSubstitutions([v]) == [Replacement(v, Mask)]
    ensures !NotBlank(v) ==> ValueSubstitutions([v]) == []
  {
    assert [v][1..] == [];
  }

  // ---------------------------------------------------------------------------
  // Literal replacement (gsub with a string pattern)
  // ---------------------------------------------------------------------------

  /** `v` occurs in `s` starting at index `i`. */
  predicate OccursAt(s: string, v: string, i: nat)
  {
    i + |v| <= |s| && s[i..i + |v|] == v
  }

  ghost predicate Contains(s: string, v: string)
  {
    exists i: nat :: OccursAt(s, v, i)
  }

  /**
    Replaces the non-overlapping occurrences of `v` in `s`, found left to right,
    by `r`. An empty `v` matches before every character and at the end.
  */
  function ReplaceAll(s: string, v: string, r: string): string
    decreases |s|
  {
    if v == [] then
      (if s == [] then r else r + [s[0]] + ReplaceAll(s[1..], v, r))
    else if s == [] then []
    else if v <= s then r + ReplaceAll(s[|v|..], v, r)
    else [s[0]] + ReplaceAll(s[1..], v, r)
  }

  // ---------------------------------------------------------------------------
  // Header redaction (gsub with /(marker)(.*)/i, replacement '\1[REDACTED]')
  // ---------------------------------------------------------------------------

  /** ASCII lower case, as a case-insensitive match compares letters. */
  function Lower(c: char): char
  {
    if 'A' <= c <= 'Z' then (c as int + 32) as char else c
  }

  /** `m` is a prefix of `s`, ignoring letter case. */
  predicate PrefixCI(m: string, s: string)
    decreases |m|
  {
    |m| <= |s| && (m == [] || (Lower(m[0]) == Lower(s[0]) && PrefixCI(m[1..], s[1..])))
  }

  /** `m` occurs in `s` at index `i`, ignoring letter case. */
  predicate MatchesAtCI(s: string, m: string, i: nat)
  {
    i <= |s| && PrefixCI(m, s[i..])
  }

  ghost predicate ContainsCI(s: string, m: string)
  {
    exists i: nat :: MatchesAtCI(s, m, i)
  }

  /**
    The part of `t` from its first newline on (empty if there is none): what is
    left after `.*` has consumed the rest of the line.
  */
  function FromNewline(t: string): (r: string)
    ensures |r| <= |t|
    ensures r == [] || r[0] == '\n'
  {
    if t == [] || t[0] == '\n' then t else FromNewline(t[1..])
  }

  /** A header marker: non-empty, and within one line. */
  predicate ValidMarker(m: string)
  {
    m != [] && '\n' !in m
  }

  /**
    Scans `s` left to right; at each case-insensitive match of the marker `m`,
    keeps the marker as written and replaces the rest of its line by
    `Redacted`, then resumes scanning at the newline.
  */
  function RedactHeader(m: string, s: string): string
    requires m != []
    decreases |s|
  {
    if s == [] then []
    else if PrefixCI(m, s) then s[..|m|] + Redacted + RedactHeader(m, FromNewline(s[|m|..]))
    else [s[0]] + RedactHeader(m, s[1..])
  }

  // ---------------------------------------------------------------------------
  // Stages of the pipeline, stated independently of the rule list
  // ---------------------------------------------------------------------------

  /** Both header rules, Authorization first. */
  function HeaderStage(s: string): string
  {
    RedactHeader(Marker(Token), RedactHeader(Marker(Authorization), s))
  }

  /** The caller's pattern rewrites, in order. */
  function ApplyPatterns(patterns: seq<string -> string>, s: string): string
    decreases |patterns|
  {
    if patterns == [] then s else ApplyPatterns(patterns[1..], patterns[0](s))
  }

  /** The literal replacements, in order. */
  function ApplyReplacements(subs: seq<Replacement>, s: string): string
    decreases |subs|
  {
    if subs == [] then s else ApplyReplacements(subs[1..], ReplaceAll(s, subs[0].find, subs[0].replace))
  }

  // ---------------------------------------------------------------------------
  // Lemmas: header redaction
  // ---------------------------------------------------------------------------

  /** Only a line break lowers to a line break. */
  lemma LowerNewline(c: char)
    ensures Lower(c) == '\n' <==> c == '\n'
  {
  }

  lemma MatchesAtTail(s: string, m: string, i: nat)
    requires s != []
    ensures MatchesAtCI(s[1..], m, i) <==> MatchesAtCI(s, m, i + 1)
  {
    if i <= |s| - 1 {
      assert s[1..][i..] == s[i + 1..];
    }
  }

  /** A case-insensitive prefix stays one when more text follows. */
  lemma {:induction false} PrefixCIExtend(m: string, x: string, y: string)
    ensures PrefixCI(m, x) ==> PrefixCI(m, x + y)
    decreases |m|
  {
    if m != [] && x != [] {
      assert (x + y)[1..] == x[1..] + y;
      PrefixCIExtend(m[1..], x[1..], y);
    }
  }

  /** A marker without line breaks that starts `a + "\n" + b` lies wholly inside `a`. */
  lemma {:induction false} PrefixCIWithinLine(m: string, a: string, b: string)
    requires '\n' !in m && '\n' !in a
    ensures PrefixCI(m, a + "\n" + b) ==> PrefixCI(m, a)
    decreases |m|
  {
    var s := a + "\n" + b;
    if m != [] {
      if a == [] {
        LowerNewline(m[0]);
        assert Lower(m[0]) != Lower(s[0]);
      } else {
        assert s[1..] == a[1..] + "\n" + b;
        PrefixCIWithinLine(m[1..], a[1..], b);
      }
    }
  }

  /** Without a marker anywhere, the header rule returns its input unchanged. */
  lemma {:induction false} RedactHeaderWithoutMarker(m: string, s: string)
    requires ValidMarker(m)
    requires !ContainsCI(s, m)
    ensures RedactHeader(m, s) == s
    decreases |s|
  {
    if s != [] {
      assert s[0..] == s;
      assert !MatchesAtCI(s, m, 0);
      forall i: nat ensures !MatchesAtCI(s[1..], m, i) {
        MatchesAtTail(s, m, i);
      }
      RedactHeaderWithoutMarker(m, s[1..]);
    }
  }

  /** A line break never starts a marker, so scanning passes over it. */
  lemma RedactHeaderAtNewline(m: string, b: string)
    requires ValidMarker(m)
    ensures RedactHeader(m, "\n" + b) == "\n" + RedactHeader(m, b)
  {
    var s := "\n" + b;
    LowerNewline(m[0]);
    assert !PrefixCI(m, s);
    assert s[1..] == b;
  }

  /**
    What `FromNewline` leaves is a suffix of its input, and the part it skips
    holds no line break.
  */
  lemma {:induction false} FromNewlineIsRestOfLine(t: string)
    ensures var r := FromNewline(t);
      && r == t[|t| - |r|..]
      && forall k :: 0 <= k < |t| - |r| ==> t[k] != '\n'
    decreases |t|
  {
    if t != [] && t[0] != '\n' {
      FromNewlineIsRestOfLine(t[1..]);
      var r := FromNewline(t);
      assert t[1..][|t| - 1 - |r|..] == t[|t| - |r|..];
    }
  }

  /** On a line without a break, `.*` runs to the end; otherwise to the first break. */
  lemma {:induction false} FromNewlineOfLine(x: string, b: string)
    requires '\n' !in x
    ensures FromNewline(x) == []
    ensures FromNewline(x + "\n" + b) == "\n" + b
    decreases |x|
  {
    if x == [] {
      assert x + "\n" + b == "\n" + b;
    } else {
      assert (x + "\n" + b)[1..] == x[1..] + "\n" + b;
      FromNewlineOfLine(x[1..], b);
    }
  }

  /** A line that starts with the marker keeps the marker and loses the rest. */
  lemma RedactHeaderMatchAtStart(m: string, l: string)
    requires ValidMarker(m)
    requires '\n' !in l
    requires PrefixCI(m, l)
    ensures RedactHeader(m, l) == l[..|m|] + Redacted
  {
    var rest := l[|m|..];
    assert FromNewline(rest) == [] by {
      FromNewlineOfLine(rest, []);
    }
    assert RedactHeader(m, l) == l[..|m|] + Redacted + RedactHeader(m, FromNewline(rest));
  }

  lemma RedactHeaderLineLocalMatch(m: string, a: string, b: string)
    requires ValidMarker(m)
    requires '\n' !in a
    requires PrefixCI(m, a + "\n" + b)
    ensures RedactHeader(m, a + "\n" + b) == RedactHeader(m, a) + "\n" + RedactHeader(m, b)
  {
    var s := a + "\n" + b;
    PrefixCIWithinLine(m, a, b);
    assert RedactHeader(m, a) == a[..|m|] + Redacted by {
      RedactHeaderMatchAtStart(m, a);
    }
    assert RedactHeader(m, s) == a[..|m|] + Redacted + RedactHeader(m, "\n" + b) by {
      assert s[..|m|] == a[..|m|];
      assert s[|m|..] == a[|m|..] + "\n" + b;
      FromNewlineOfLine(a[|m|..], b);
    }
    RedactHeaderAtNewline(m, b);
  }

  /**
    Header redaction is line-local: what it does to one line does not depend
    on the lines after it, and it never reaches past a line break.
  */
  lemma {:induction false} RedactHeaderLineLocal(m: string, a: string, b: string)
    requires ValidMarker(m)
    requires '\n' !in a
    ensures RedactHeader(m, a + "\n" + b) == RedactHeader(m, a) + "\n" + RedactHeader(m, b)
    decreases |a|
  {
    var s := a + "\n" + b;
    if a == [] {
      assert s == "\n" + b;
      RedactHeaderAtNewline(m, b);
    } else if PrefixCI(m, s) {
      RedactHeaderLineLocalMatch(m, a, b);
    } else {
      PrefixCIExtend(m, a, "\n" + b);
      assert s == a + ("\n" + b);
      assert s[1..] == a[1..] + "\n" + b;
      assert RedactHeader(m, a[1..] + "\n" + b) == RedactHeader(m, a[1..]) + "\n" + RedactHeader(m, b) by {
        RedactHeaderLineLocal(m, a[1..], b);
      }
    }
  }

  /**
    On a single line whose first case-insensitive marker starts at `i`, the
    line is kept up to and including the marker, in its original letter case,
    and everything after it becomes `Redacted`.
  */
  lemma {:induction false} RedactHeaderFirstMatch(m: string, l: string, i: nat)
    requires ValidMarker(m)
    requires '\n' !in l
    requires MatchesAtCI(l, m, i)
    requires forall j: nat :: j < i ==> !MatchesAtCI(l, m, j)
    ensures RedactHeader(m, l) == l[..i + |m|] + Redacted
    decreases i
  {
    assert l[0..] == l;
    if i == 0 {
      RedactHeaderMatchAtStart(m, l);
    } else {
      assert !MatchesAtCI(l, m, 0);
      assert RedactHeader(m, l[1..]) == l[1..][..i - 1 + |m|] + Redacted by {
        MatchesAtTail(l, m, i - 1);
        forall j: nat | j < i - 1 ensures !MatchesAtCI(l[1..], m, j) {
          MatchesAtTail(l, m, j);
        }
        RedactHeaderFirstMatch(m, l[1..], i - 1);
      }
      assert l[..i + |m|] == [l[0]] + l[1..][..i - 1 + |m|];
    }
  }

  // ---------------------------------------------------------------------------
  // Lemmas: literal replacement
  // ---------------------------------------------------------------------------

  lemma OccursInSuffix(s: string, v: string, k: nat, i: nat)
    requires k <= |s|
    ensures OccursAt(s[k..], v, i) ==> OccursAt(s, v, k + i)
  {
    if OccursAt(s[k..], v, i) {
      assert s[k..][i..i + |v|] == s[k + i..k + i + |v|];
    }
  }

  lemma ContainsInSuffix(s: string, v: string, k: nat)
    requires k <= |s|
    ensures Contains(s[k..], v) ==> Contains(s, v)
  {
    if Contains(s[k..], v) {
      var i: nat :| OccursAt(s[k..], v, i);
      OccursInSuffix(s, v, k, i);
    }
  }

  lemma OccursAfterPrefix(p: string, t: string, v: string, i: nat)
    requires |p| <= i
    ensures OccursAt(p + t, v, i) ==> OccursAt(t, v, i - |p|)
  {
    if OccursAt(p + t, v, i) {
      assert (p + t)[i..i + |v|] == t[i - |p|..i - |p| + |v|];
    }
  }

  /**
    The first occurrence of a non-empty value, at `i`, is replaced by `r`;
    the text before it is kept and the scan resumes just after it.
  */
  lemma {:induction false} ReplaceAllFirstOccurrence(s: string, v: string, r: string, i: nat)
    requires v != [] && OccursAt(s, v, i)
    requires forall j: nat :: j < i ==> !OccursAt(s, v, j)
    ensures ReplaceAll(s, v, r) == s[..i] + r + ReplaceAll(s[i + |v|..], v, r)
    decreases i
  {
    if i == 0 {
      FirstOccurrenceAtStart(s, v, r);
    } else {
      FirstOccurrenceInTail(s, v, i);
      ReplaceAllFirstOccurrence(s[1..], v, r, i - 1);
      FirstOccurrenceStep(s, v, r, i);
    }
  }

  lemma FirstOccurrenceAtStart(s: string, v: string, r: string)
    requires v != [] && OccursAt(s, v, 0)
    ensures ReplaceAll(s, v, r) == s[..0] + r + ReplaceAll(s[0 + |v|..], v, r)
  {
    OccursAtStart(s, v);
    ReplaceAllAtOccurrence(s, v, r);
    EmptyPrefix(s, r, ReplaceAll(s[|v|..], v, r));
  }

  /** One step of the induction: the first character is kept in front of the tail's result. */
  lemma FirstOccurrenceStep(s: string, v: string, r: string, i: nat)
    requires v != [] && 0 < i && i + |v| <= |s| && !OccursAt(s, v, 0)
    requires s[1..][i - 1 + |v|..] == s[i + |v|..]
    requires ReplaceAll(s[1..], v, r) == s[1..][..i - 1] + r + ReplaceAll(s[1..][i - 1 + |v|..], v, r)
    ensures ReplaceAll(s, v, r) == s[..i] + r + ReplaceAll(s[i + |v|..], v, r)
  {
    ReplaceAllPastCharacter(s, v, r);
    ReassembleAfterFirst(s, r, ReplaceAll(s[i + |v|..], v, r), i);
  }

  lemma OccursAtStart(s: string, v: string)
    requires OccursAt(s, v, 0)
    ensures v <= s
  {
  }

  /** An occurrence at the start is replaced and the scan resumes after it. */
  lemma ReplaceAllAtOccurrence(s: string, v: string, r: string)
    requires v != [] && v <= s
    ensures ReplaceAll(s, v, r) == r + ReplaceAll(s[|v|..], v, r)
  {
  }

  lemma EmptyPrefix(s: string, r: string, t: string)
    ensures s[..0] + r + t == r + t
  {
  }

  /** A first character that starts no occurrence is kept. */
  lemma ReplaceAllPastCharacter(s: string, v: string, r: string)
    requires v != [] && s != [] && !OccursAt(s, v, 0)
    ensures ReplaceAll(s, v, r) == [s[0]] + ReplaceAll(s[1..], v, r)
  {
    assert !(v <= s);
  }

  /** Putting the kept first character back in front of the rest of the line. */
  lemma ReassembleAfterFirst(s: string, r: string, tail: string, i: nat)
    requires 0 < i <= |s|
    ensures [s[0]] + (s[1..][..i - 1] + r + tail) == s[..i] + r + tail
  {
    assert s[..i] == [s[0]] + s[1..][..i - 1];
  }

  /** Dropping a first character that starts no occurrence moves the first occurrence one place left. */
  lemma FirstOccurrenceInTail(s: string, v: string, i: nat)
    requires 0 < i && OccursAt(s, v, i)
    requires forall j: nat :: j < i ==> !OccursAt(s, v, j)
    ensures s != [] && OccursAt(s[1..], v, i - 1)
    ensures forall j: nat :: j < i - 1 ==> !OccursAt(s[1..], v, j)
    ensures s[1..][i - 1 + |v|..] == s[i + |v|..]
  {
    assert s[1..][i - 1..i - 1 + |v|] == s[i..i + |v|];
    forall j: nat | j < i - 1
      ensures !OccursAt(s[1..], v, j)
    {
      OccursInSuffix(s, v, 1, j);
    }
  }

  /**
    A text without asterisks that starts the result of masking `w` in `u`
    also starts `u`: masking only ever introduces asterisks.
  */
  lemma {:induction false} MaskFreePrefix(u: string, w: string, x: string)
    requires '*' !in x
    ensures x <= ReplaceAll(u, w, Mask) ==> x <= u
    decreases |u|
  {
    var res := ReplaceAll(u, w, Mask);
    if w == [] || (u != [] && w <= u) {
      assert res[0] == '*';
    } else if u != [] {
      assert res == [u[0]] + ReplaceAll(u[1..], w, Mask);
      if x != [] {
        MaskFreePrefix(u[1..], w, x[1..]);
      }
    }
  }

  /** A value without a match in the log is left as it is. */
  lemma {:induction false} ReplaceAllWithoutOccurrence(s: string, v: string, r: string)
    requires v != [] && !Contains(s, v)
    ensures ReplaceAll(s, v, r) == s
    decreases |s|
  {
    if s != [] {
      assert !(v <= s) by {
        assert v <= s ==> OccursAt(s, v, 0);
      }
      ContainsInSuffix(s, v, 1);
      ReplaceAllWithoutOccurrence(s[1..], v, r);
    }
  }

  /** Every character of the mask is an asterisk. */
  lemma MaskAt(rest: string, i: nat)
    requires i < |Mask|
    ensures (Mask + rest)[i] == '*'
  {
  }

  /** A value without asterisks cannot start inside the mask. */
  lemma NoOccurrenceInMask(rest: string, v: string, i: nat)
    requires v != [] && '*' !in v && i < |Mask|
    ensures !OccursAt(Mask + rest, v, i)
  {
    MaskAt(rest, i);
    if i + |v| <= |Mask + rest| {
      assert (Mask + rest)[i..i + |v|][0] == (Mask + rest)[i];
    }
  }

  /** After masking a value that holds no asterisk, the value no longer occurs. */
  lemma {:induction false} ReplaceAllRemoves(s: string, v: string)
    requires v != [] && '*' !in v
    ensures !Contains(ReplaceAll(s, v, Mask), v)
    decreases |s|
  {
    var res := ReplaceAll(s, v, Mask);
    if s != [] {
      if v <= s {
        var rest := ReplaceAll(s[|v|..], v, Mask);
        assert res == Mask + rest;
        ReplaceAllRemoves(s[|v|..], v);
        forall i: nat ensures !OccursAt(res, v, i) {
          if i < |Mask| {
            NoOccurrenceInMask(rest, v, i);
          } else {
            OccursAfterPrefix(Mask, rest, v, i);
          }
        }
      } else {
        var rest := ReplaceAll(s[1..], v, Mask);
        assert res == [s[0]] + rest;
        ReplaceAllRemoves(s[1..], v);
        forall i: nat ensures !OccursAt(res, v, i) {
          if i == 0 {
            MaskFreePrefix(s, v, v);
          } else {
            OccursAfterPrefix([s[0]], rest, v, i);
          }
        }
      }
    }
  }

  /** An occurrence right after the leading mask starts with the first character of `s`. */
  lemma OccursAfterLeadingMask(s: string, v: string)
    requires s != [] && v != [] && '*' !in v
    ensures OccursAt(Mask + ([s[0]] + ReplaceAll(s[1..], [], Mask)), v, |Mask|) ==> OccursAt(s, v, 0)
  {
    var rest := ReplaceAll(s[1..], [], Mask);
    var tail := [s[0]] + rest;
    OccursAfterPrefix(Mask, tail, v, |Mask|);
    MaskFreePrefix(s[1..], [], v[1..]);
    assert OccursAt(tail, v, 0) ==> v[1..] <= rest;
  }

  /** Masking with an empty pattern introduces only asterisks. */
  lemma {:induction false} ReplaceEmptyKeepsAbsent(s: string, v: string)
    requires v != [] && '*' !in v
    ensures Contains(ReplaceAll(s, [], Mask), v) ==> Contains(s, v)
    decreases |s|
  {
    var res := ReplaceAll(s, [], Mask);
    if s == [] {
      assert res == Mask + [];
      forall i: nat ensures !OccursAt(res, v, i) {
        if i < |Mask| { NoOccurrenceInMask([], v, i); }
      }
    } else {
      var rest := ReplaceAll(s[1..], [], Mask);
      var tail := [s[0]] + rest;
      assert res == Mask + tail;
      assert Contains(rest, v) ==> Contains(s, v) by {
        ReplaceEmptyKeepsAbsent(s[1..], v);
        ContainsInSuffix(s, v, 1);
      }
      forall i: nat ensures OccursAt(res, v, i) ==> Contains(s, v) {
        if i < |Mask| {
          NoOccurrenceInMask(tail, v, i);
        } else if i == |Mask| {
          OccursAfterLeadingMask(s, v);
        } else {
          OccursAfterPrefix(Mask, tail, v, i);
          OccursAfterPrefix([s[0]], rest, v, i - |Mask|);
        }
      }
    }
  }

  /** Masking a non-empty pattern introduces only asterisks. */
  lemma {:induction false} ReplaceNonEmptyKeepsAbsent(s: string, w: string, v: string)
    requires w != [] && v != [] && '*' !in v
    ensures Contains(ReplaceAll(s, w, Mask), v) ==> Contains(s, v)
    decreases |s|
  {
    var res := ReplaceAll(s, w, Mask);
    if s != [] && w <= s {
      var rest := ReplaceAll(s[|w|..], w, Mask);
      assert res == Mask + rest;
      ReplaceNonEmptyKeepsAbsent(s[|w|..], w, v);
      ContainsInSuffix(s, v, |w|);
      forall i: nat ensures OccursAt(res, v, i) ==> Contains(s, v) {
        if i < |Mask| {
          NoOccurrenceInMask(rest, v, i);
        } else {
          OccursAfterPrefix(Mask, rest, v, i);
        }
      }
    } else if s != [] {
      var rest := ReplaceAll(s[1..], w, Mask);
      assert res == [s[0]] + rest;
      ReplaceNonEmptyKeepsAbsent(s[1..], w, v);
      ContainsInSuffix(s, v, 1);
      forall i: nat ensures OccursAt(res, v, i) ==> Contains(s, v) {
        if i == 0 {
          MaskFreePrefix(s, w, v);
          assert OccursAt(res, v, 0) ==> OccursAt(s, v, 0);
        } else {
          OccursAfterPrefix([s[0]], rest, v, i);
        }
      }
    }
  }

  /** Masking one value never makes another value without asterisks appear. */
  lemma ReplaceAllKeepsAbsent(s: string, w: string, v: string)
    requires v != [] && '*' !in v
    ensures Contains(ReplaceAll(s, w, Mask), v) ==> Contains(s, v)
  {
    if w == [] {
      ReplaceEmptyKeepsAbsent(s, v);
    } else {
      ReplaceNonEmptyKeepsAbsent(s, w, v);
    }
  }

  // ---------------------------------------------------------------------------
  // Lemmas: the pipeline
  // ---------------------------------------------------------------------------

  /** Running `a + b` is running `a`, then `b` on its output. */
  lemma {:induction false} ApplyAllAppend(a: seq<Rule>, b: seq<Rule>, s: string)
    ensures ApplyAll(a + b, s) == ApplyAll(b, ApplyAll(a, s))
    decreases |a|
  {
    if a == [] {
      assert a + b == b;
    } else {
      assert (a + b)[0] == a[0];
      assert (a + b)[1..] == a[1..] + b;
      ApplyAllAppend(a[1..], b, Apply(a[0], s));
    }
  }

  lemma {:induction false} PatternRulesApply(patterns: seq<string -> string>, s: string)
    ensures ApplyAll(PatternRules(patterns), s) == ApplyPatterns(patterns, s)
    decreases |patterns|
  {
    if patterns != [] {
      assert PatternRules(patterns)[1..] == PatternRules(patterns[1..]);
      PatternRulesApply(patterns[1..], patterns[0](s));
    }
  }

  lemma {:induction false} LiteralRulesApply(subs: seq<Replacement>, s: string)
    ensures ApplyAll(LiteralRules(subs), s) == ApplyReplacements(subs, s)
    decreases |subs|
  {
    if subs != [] {
      assert LiteralRules(subs)[1..] == LiteralRules(subs[1..]);
      LiteralRulesApply(subs[1..], ReplaceAll(s, subs[0].find, subs[0].replace));
    }
  }

  /**
    The substitutions run in a fixed order, each on the previous one's output:
    both header rules, then the caller's patterns, then the values.
  */
  lemma CallStages(logs: string, values: seq<string>, patterns: seq<string -> string>)
    ensures Call(logs, values, patterns)
         == ApplyReplacements(ValueSubstitutions(values), ApplyPatterns(patterns, HeaderStage(logs)))
  {
    var pr, lr := PatternRules(patterns), LiteralRules(ValueSubstitutions(values));
    ApplyAllAppend(HeaderSubstitutions + pr, lr, logs);
    ApplyAllAppend(HeaderSubstitutions, pr, logs);
    assert ApplyAll(HeaderSubstitutions, logs) == HeaderStage(logs) by {
      assert HeaderSubstitutions[1..] == [HeaderRule(Token)];
    }
    PatternRulesApply(patterns, HeaderStage(logs));
    LiteralRulesApply(ValueSubstitutions(values), ApplyPatterns(patterns, HeaderStage(logs)));
  }

  /** With no patterns and no non-blank value, only the two header rules act. */
  lemma CallHeadersOnly(logs: string, values: seq<string>)
    requires forall v :: v in values ==> !NotBlank(v)
    ensures Call(logs, values, []) == HeaderStage(logs)
  {
    CallStages(logs, values, []);
    var subs := ValueSubstitutions(values);
    assert forall i :: 0 <= i < |subs| ==> subs[i] in subs;
  }

  lemma {:induction false} ApplyPatternsFixed(patterns: seq<string -> string>, s: string)
    requires forall i :: 0 <= i < |patterns| ==> patterns[i](s) == s
    ensures ApplyPatterns(patterns, s) == s
    decreases |patterns|
  {
    if patterns != [] {
      ApplyPatternsFixed(patterns[1..], s);
    }
  }

  lemma {:induction false} ApplyReplacementsAbsent(subs: seq<Replacement>, s: string)
    requires forall r :: r in subs ==> r.find != [] && !Contains(s, r.find)
    ensures ApplyReplacements(subs, s) == s
    decreases |subs|
  {
    if subs != [] {
      ReplaceAllWithoutOccurrence(s, subs[0].find, subs[0].replace);
      ApplyReplacementsAbsent(subs[1..], s);
    }
  }

  /**
    A log with no header marker, which every pattern leaves as it is, and in
    which no non-blank value occurs, comes back unchanged.
  */
  lemma CallUnchanged(logs: string, values: seq<string>, patterns: seq<string -> string>)
    requires !ContainsCI(logs, Marker(Authorization)) && !ContainsCI(logs, Marker(Token))
    requires forall i :: 0 <= i < |patterns| ==> patterns[i](logs) == logs
    requires forall v :: v in values && NotBlank(v) ==> !Contains(logs, v)
    ensures Call(logs, values, patterns) == logs
  {
    CallStages(logs, values, patterns);
    RedactHeaderWithoutMarker(Marker(Authorization), logs);
    RedactHeaderWithoutMarker(Marker(Token), logs);
    ApplyPatternsFixed(patterns, logs);
    ApplyReplacementsAbsent(ValueSubstitutions(values), logs);
  }

  lemma {:induction false} ApplyReplacementsKeepsAbsent(subs: seq<Replacement>, s: string, v: string)
    requires forall r :: r in subs ==> r.replace == Mask
    requires v != [] && '*' !in v
    ensures Contains(ApplyReplacements(subs, s), v) ==> Contains(s, v)
    decreases |subs|
  {
    if subs != [] {
      var s' := ReplaceAll(s, subs[0].find, Mask);
      assert subs[0] in subs;
      ReplaceAllKeepsAbsent(s, subs[0].find, v);
      ApplyReplacementsKeepsAbsent(subs[1..], s', v);
    }
  }

  lemma {:induction false} ApplyReplacementsHides(subs: seq<Replacement>, s: string, v: string)
    requires forall r :: r in subs ==> r.replace == Mask
    requires Replacement(v, Mask) in subs
    requires v != [] && '*' !in v
    ensures !Contains(ApplyReplacements(subs, s), v)
    decreases |subs|
  {
    var s' := ReplaceAll(s, subs[0].find, Mask);
    assert subs[0] in subs;
    if subs[0] == Replacement(v, Mask) {
      ReplaceAllRemoves(s, v);
      ApplyReplacementsKeepsAbsent(subs[1..], s', v);
    } else {
      ApplyReplacementsHides(subs[1..], s', v);
    }
  }

  /**
    Every non-blank value that holds no asterisk is gone from the redacted
    log, whatever the header rules and the caller's patterns did before.
  */
  lemma CallHidesValues(logs: string, values: seq<string>, patterns: seq<string -> string>, v: string)
    requires v in values && NotBlank(v) && '*' !in v
    ensures !Contains(Call(logs, values, patterns), v)
  {
    CallStages(logs, values, patterns);
    ApplyReplacementsHides(ValueSubstitutions(values), ApplyPatterns(patterns, HeaderStage(logs)), v);
  }
}
