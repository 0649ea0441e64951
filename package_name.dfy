/** The package-name check of the PlayStore scraper.

    The source validates with `re.match` and a pattern made of one segment
    `[a-zA-Z_][a-zA-Z0-9_]*`, then any number of further segments each
    preceded by a dot, then `$`. `re.match` anchors the pattern at the start
    of the string, and `$` holds either at the end of the string or just
    before a final newline. The
    pattern itself is modelled by a three-state scanner; two independent
    grammars (segment splitting and a character-level shape) are proved to
    accept the same names. */
module PackageName {

  /** `[a-zA-Z_]`: a character that may start a segment. */
  predicate IsSegmentStart(c: char) {
    'a' <= c <= 'z' || 'A' <= c <= 'Z' || c == '_'
  }

  /** `[a-zA-Z0-9_]`: a character that may continue a segment. */
  predicate IsSegmentChar(c: char) {
    IsSegmentStart(c) || '0' <= c <= '9'
  }

  predicate AllSegmentChars(s: string) {
    forall i :: 0 <= i < |s| ==> IsSegmentChar(s[i])
  }

  /** `[a-zA-Z_][a-zA-Z0-9_]*` */
  predicate IsSegment(s: string) {
    |s| > 0 && IsSegmentStart(s[0]) && AllSegmentChars(s[1..])
  }

  // ---------------------------------------------------------------------
  // Reference grammar 1: dot-separated segments

  /** The pieces of `s` between dots, as Python's `s.split('.')` gives them. */
  function Split(s: string): (pieces: seq<string>)
    ensures |pieces| >= 1
  {
    if s == [] then [[]]
    else if s[0] == '.' then [[]] + Split(s[1..])
    else
      var rest := Split(s[1..]);
      [[s[0]] + rest[0]] + rest[1..]
  }

  /** The pieces joined with single dots, as Python's `'.'.join(pieces)`. */
  function Join(pieces: seq<string>): string
    requires |pieces| >= 1
  {
    if |pieces| == 1 then pieces[0] else pieces[0] + "." + Join(pieces[1..])
  }

  /** One or more segments joined by single dots. */
  ghost predicate IsPackageName(s: string) {
    forall i :: 0 <= i < |Split(s)| ==> IsSegment(Split(s)[i])
  }

  // ---------------------------------------------------------------------
  // Reference grammar 2: the shape of the string, character by character

  ghost predicate WellShaped(n: string) {
    && |n| > 0
    && IsSegmentStart(n[0])
    && n[|n| - 1] != '.'
    && (forall i :: 0 <= i < |n| ==> IsSegmentChar(n[i]) || n[i] == '.')
    && (forall i :: 0 <= i < |n| - 1 && n[i] == '.' ==> IsSegmentStart(n[i + 1]))
  }

  // ---------------------------------------------------------------------
  // The pattern, as a scanner

  /** Where the scanner stands: expecting the first character of a segment,
      inside a segment, or past a character the pattern cannot take. */
  datatype ScanState = AtSegmentStart | InSegment | Rejected

  function Step(st: ScanState, c: char): ScanState {
    match st
    case AtSegmentStart => if IsSegmentStart(c) then InSegment else Rejected
    case InSegment =>
      if c == '.' then AtSegmentStart
      else if IsSegmentChar(c) then InSegment
      else Rejected
    case Rejected => Rejected
  }

  function Scan(st: ScanState, s: string): ScanState
    decreases s
  {
    if s == [] then st else Scan(Step(st, s[0]), s[1..])
  }

  /** The pattern (without `$`) matches the whole of `s`. */
  predicate PatternMatches(s: string) {
    Scan(AtSegmentStart, s) == InSegment
  }

  /** Python's `$`: the end of the string, or just before a final newline. */
  predicate DollarAt(p: string, k: nat) {
    k == |p| || (k + 1 == |p| && p[k] == '\n')
  }

  /** `re.match(pattern + "$", p)` succeeds: some prefix of `p` matches the
      pattern, and `$` holds right after it. */
  ghost predicate ReMatch(p: string) {
    exists k :: 0 <= k <= |p| && PatternMatches(p[..k]) && DollarAt(p, k)
  }

  /** The name proper: `p` without one final newline. */
  function NamePart(p: string): string {
    if |p| > 0 && p[|p| - 1] == '\n' then p[..|p| - 1] else p
  }

  /** `_validate_play_store_package_name`: the match object is truthy exactly
      when the match succeeds. */
  function Validate(p: string): (ok: bool)
    ensures ok <==> ReMatch(p)
    ensures ok <==> IsPackageName(p) || (|p| > 0 && p[|p| - 1] == '\n' && IsPackageName(p[..|p| - 1]))
  {
    ScanAgreesWithSplit(p);
    ScanAgreesWithSplit(NamePart(p));
    DollarMatchesNamePart(p);
    PatternMatches(p) || (|p| > 0 && p[|p| - 1] == '\n' && PatternMatches(p[..|p| - 1]))
  }

  /** The two ways `$` can hold are exactly the two disjuncts of `Validate`. */
  lemma DollarMatchesNamePart(p: string)
    ensures ReMatch(p) <==>
      PatternMatches(p) || (|p| > 0 && p[|p| - 1] == '\n' && PatternMatches(p[..|p| - 1]))
  {
    assert p[..|p|] == p;
    if ReMatch(p) {
      var k :| 0 <= k <= |p| && PatternMatches(p[..k]) && DollarAt(p, k);
    }
    if |p| > 0 && p[|p| - 1] == '\n' && PatternMatches(p[..|p| - 1]) {
      assert DollarAt(p, |p| - 1);
    }
  }

  // ---------------------------------------------------------------------
  // The scanner agrees with both grammars

  lemma {:induction false} ScanRejectedStays(s: string)
    ensures Scan(Rejected, s) == Rejected
  {
    if s != [] { ScanRejectedStays(s[1..]); }
  }

  /** What the rest of the input must look like once inside a segment. */
  ghost predicate SegmentTail(s: string) {
    AllSegmentChars(Split(s)[0]) && forall i :: 1 <= i < |Split(s)| ==> IsSegment(Split(s)[i])
  }

  lemma {:induction false} ScanAgreesWithSplit(s: string)
    ensures PatternMatches(s) <==> IsPackageName(s)
    ensures Scan(InSegment, s) == InSegment <==> SegmentTail(s)
  {
    if s == [] {
      assert Split(s) == [[]];
    } else {
      var c, rest := s[0], s[1..];
      var t := Split(rest);
      ScanAgreesWithSplit(rest);
      ScanRejectedStays(rest);
      if c == '.' {
        assert Split(s) == [[]] + t;
        assert !IsSegment(Split(s)[0]);
        assert Scan(InSegment, s) == Scan(AtSegmentStart, rest);
        assert forall i :: 1 <= i < |Split(s)| ==> Split(s)[i] == t[i - 1];
        assert SegmentTail(s) <==> IsPackageName(rest) by {
          assert AllSegmentChars(Split(s)[0]);
          if IsPackageName(rest) {
            forall i | 1 <= i < |Split(s)| ensures IsSegment(Split(s)[i]) {
              assert Split(s)[i] == t[i - 1];
            }
          }
          if SegmentTail(s) {
            forall j | 0 <= j < |t| ensures IsSegment(t[j]) {
              assert t[j] == Split(s)[j + 1];
            }
          }
        }
      } else {
        var head := [c] + t[0];
        assert Split(s) == [head] + t[1..];
        assert head[1..] == t[0];
        assert forall i :: 1 <= i < |Split(s)| ==> Split(s)[i] == t[i];
        assert AllSegmentChars(head) <==> IsSegmentChar(c) && AllSegmentChars(t[0]) by {
          if IsSegmentChar(c) && AllSegmentChars(t[0]) {
            forall i | 0 <= i < |head| ensures IsSegmentChar(head[i]) {
              if i > 0 { assert head[i] == t[0][i - 1]; }
            }
          }
          if AllSegmentChars(head) {
            assert IsSegmentChar(head[0]);
            forall i | 0 <= i < |t[0]| ensures IsSegmentChar(t[0][i]) {
              assert t[0][i] == head[i + 1];
            }
          }
        }
      }
    }
  }

  // ---------------------------------------------------------------------
  // The scanner agrees with the character-level shape

  /** The shape of what may follow once the scanner is inside a segment. */
  ghost predicate TailShaped(s: string) {
    && (|s| > 0 ==> s[|s| - 1] != '.')
    && (forall i :: 0 <= i < |s| ==> IsSegmentChar(s[i]) || s[i] == '.')
    && (forall i :: 0 <= i < |s| - 1 && s[i] == '.' ==> IsSegmentStart(s[i + 1]))
  }

  lemma TailShapedCons(c: char, rest: string)
    ensures TailShaped([c] + rest) <==>
      && (IsSegmentChar(c) || c == '.')
      && (c == '.' ==> |rest| > 0 && IsSegmentStart(rest[0]))
      && TailShaped(rest)
  {
    var s := [c] + rest;
    assert forall i :: 0 <= i < |rest| ==> rest[i] == s[i + 1];
    if TailShaped(s) {
      forall i | 0 <= i < |rest| ensures IsSegmentChar(rest[i]) || rest[i] == '.' {
        assert rest[i] == s[i + 1];
      }
      forall i | 0 <= i < |rest| - 1 && rest[i] == '.' ensures IsSegmentStart(rest[i + 1]) {
        assert s[i + 1] == '.';
      }
      if |rest| > 0 {
        assert rest[|rest| - 1] == s[|s| - 1];
      }
      assert IsSegmentChar(s[0]) || s[0] == '.';
      if c == '.' {
        assert |s| > 1;
        assert IsSegmentStart(s[1]);
      }
    }
    if && (IsSegmentChar(c) || c == '.')
       && (c == '.' ==> |rest| > 0 && IsSegmentStart(rest[0]))
       && TailShaped(rest)
    {
      forall i | 0 <= i < |s| ensures IsSegmentChar(s[i]) || s[i] == '.' {
        if i > 0 { assert s[i] == rest[i - 1]; }
      }
      forall i | 0 <= i < |s| - 1 && s[i] == '.' ensures IsSegmentStart(s[i + 1]) {
        if i > 0 { assert s[i] == rest[i - 1]; }
      }
    }
  }

  lemma {:induction false} ScanAgreesWithShape(s: string)
    ensures PatternMatches(s) <==> WellShaped(s)
    ensures Scan(InSegment, s) == InSegment <==> TailShaped(s)
  {
    if s != [] {
      var c, rest := s[0], s[1..];
      assert s == [c] + rest;
      ScanAgreesWithShape(rest);
      ScanRejectedStays(rest);
      TailShapedCons(c, rest);
      if c == '.' && |rest| > 0 {
        TailShapedCons(rest[0], rest[1..]);
        assert rest == [rest[0]] + rest[1..];
      }
      assert WellShaped(s) <==> IsSegmentStart(c) && TailShaped(s);
    }
  }

  /** The validator accepts exactly the well-shaped names, optionally
      followed by one newline. */
  lemma ValidateIffShape(p: string)
    ensures Validate(p) <==> WellShaped(NamePart(p))
  {
    ScanAgreesWithSplit(p);
    ScanAgreesWithShape(p);
    ScanAgreesWithSplit(NamePart(p));
    ScanAgreesWithShape(NamePart(p));
    if |p| > 0 && p[|p| - 1] == '\n' {
      assert !WellShaped(p) by {
        assert !IsSegmentChar(p[|p| - 1]);
      }
    }
  }

  /** What the validator rejects: empty input, a first character that cannot
      start a segment (a dot, a digit, anything else), a trailing dot, a dot
      followed by anything but a segment start (two dots, a digit), and any
      character outside `[A-Za-z0-9_.]` other than one final newline. */
  lemma ValidateRejects(p: string)
    ensures p == [] ==> !Validate(p)
    ensures |p| > 0 && !IsSegmentStart(p[0]) ==> !Validate(p)
    ensures |p| > 0 && p[|p| - 1] == '.' ==> !Validate(p)
    ensures (exists i :: 0 <= i < |p| - 1 && p[i] == '.' && p[i + 1] == '.') ==> !Validate(p)
    ensures (exists i :: 0 <= i < |p| - 1 && p[i] == '.' && '0' <= p[i + 1] <= '9') ==> !Validate(p)
    ensures (exists i :: 0 <= i < |p| - 1 && p[i] == '.' && !IsSegmentStart(p[i + 1])) ==> !Validate(p)
    ensures (exists i :: 0 <= i < |p| && !IsSegmentChar(p[i]) && p[i] != '.' && !(i == |p| - 1 && p[i] == '\n'))
            ==> !Validate(p)
  {
    ValidateIffShape(p);
    if Validate(p) {
      var n := NamePart(p);
      assert WellShaped(n);
      assert forall i :: 0 <= i < |n| ==> n[i] == p[i];
      forall i | 0 <= i < |p| - 1 && p[i] == '.' ensures IsSegmentStart(p[i + 1]) {
        assert i < |n| - 1;
      }
      forall i | 0 <= i < |p| && !(i == |p| - 1 && p[i] == '\n') ensures IsSegmentChar(p[i]) || p[i] == '.' {
        assert i < |n|;
      }
    }
  }

  // ---------------------------------------------------------------------
  // Splitting and joining

  predicate DotFree(s: string) {
    forall i :: 0 <= i < |s| ==> s[i] != '.'
  }

  lemma {:induction false} SplitDotFreePrefix(a: string, b: string)
    requires DotFree(a)
    ensures Split(a) == [a]
    ensures Split(a + "." + b) == [a] + Split(b)
  {
    if a != [] {
      assert (a + "." + b)[1..] == a[1..] + "." + b;
      SplitDotFreePrefix(a[1..], b);
      assert [a[0]] + a[1..] == a;
    } else {
      assert a + "." + b == "." + b;
    }
  }

  lemma {:induction false} SplitThenJoin(s: string)
    ensures Join(Split(s)) == s
  {
    if s != [] {
      var t := Split(s[1..]);
      SplitThenJoin(s[1..]);
      if s[0] == '.' {
        assert Split(s) == [[]] + t;
        assert ([[]] + t)[1..] == t;
      } else {
        assert Split(s) == [[s[0]] + t[0]] + t[1..];
        if |t| > 1 {
          assert ([[s[0]] + t[0]] + t[1..])[1..] == t[1..];
        }
      }
    }
  }

  lemma {:induction false} JoinThenSplit(pieces: seq<string>)
    requires |pieces| >= 1
    requires forall i :: 0 <= i < |pieces| ==> DotFree(pieces[i])
    ensures Split(Join(pieces)) == pieces
  {
    SplitDotFreePrefix(pieces[0], "");
    if |pieces| > 1 {
      JoinThenSplit(pieces[1..]);
      SplitDotFreePrefix(pieces[0], Join(pieces[1..]));
    }
  }

  /** Every name of one or more segments joined by single dots is accepted,
      with or without one trailing newline. */
  lemma ValidateAcceptsJoin(segments: seq<string>)
    requires |segments| >= 1
    requires forall i :: 0 <= i < |segments| ==> IsSegment(segments[i])
    ensures Validate(Join(segments))
    ensures Validate(Join(segments) + "\n")
  {
    var n := Join(segments);
    JoinIsPackageName(segments);
    var p := n + "\n";
    assert p[..|p| - 1] == n;
    assert p[|p| - 1] == '\n';
  }

  /** Dot-joined segments form a package name. */
  lemma JoinIsPackageName(segments: seq<string>)
    requires |segments| >= 1
    requires forall i :: 0 <= i < |segments| ==> IsSegment(segments[i])
    ensures IsPackageName(Join(segments))
  {
    forall i | 0 <= i < |segments| ensures DotFree(segments[i]) {
      assert IsSegment(segments[i]);
    }
    JoinThenSplit(segments);
  }

  /** Whatever the validator accepts is such a join, with or without one
      trailing newline. */
  lemma ValidateSplits(p: string)
    requires Validate(p)
    ensures var segments := Split(NamePart(p));
      && Join(segments) == NamePart(p)
      && forall i :: 0 <= i < |segments| ==> IsSegment(segments[i])
    ensures p == NamePart(p) || p == NamePart(p) + "\n"
  {
    SplitThenJoin(NamePart(p));
    if |p| > 0 && p[|p| - 1] == '\n' {
      assert !IsPackageName(p) by {
        ScanAgreesWithSplit(p);
        ScanAgreesWithShape(p);
        assert !IsSegmentChar(p[|p| - 1]);
      }
      assert p == p[..|p| - 1] + "\n";
    }
  }
}
