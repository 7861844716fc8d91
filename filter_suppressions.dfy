/**
  The inline-suppression filter: scanner output comes in line by line; a line
  that starts with a finding `path:line[:col]` is dropped when the referenced
  source line, or the line just before it, carries a suppression marker, and
  every other line passes through untouched.

  The file system is a map from each readable file's path to its lines; a path
  that is not in the map is one that is not a regular file or cannot be read.
*/
module SuppressionFilter {
  import opened Wrappers

  // ---------------------------------------------------------------------------
  // Characters
  // ---------------------------------------------------------------------------

  const Esc: char := 27 as char

  /** The characters Python's `\s` matches in a text pattern. */
  predicate IsSpace(c: char)
  {
    || c == ' ' || c == '\t' || c == '\n' || c == '\r'
    || (11 as char <= c <= 12 as char)       // vertical tab, form feed
    || (28 as char <= c <= 31 as char)       // file, group, record and unit separators
    || c == 0x85 as char || c == 0xA0 as char
    || c == 0x1680 as char
    || (0x2000 as char <= c <= 0x200A as char)
    || c == 0x2028 as char || c == 0x2029 as char || c == 0x202F as char
    || c == 0x205F as char || c == 0x3000 as char
  }

  predicate IsDigit(c: char)
  {
    '0' <= c <= '9'
  }

  /** A character that `[^:\s]` matches. */
  predicate IsPathChar(c: char)
  {
    c != ':' && !IsSpace(c)
  }

  /** The character classes the two patterns repeat greedily. */
  datatype CharClass =
    | Space             // `\s`
    | PathChar          // `[^:\s]`
    | Digit             // `\d`
    | ParameterByte     // `[0-?]`
    | IntermediateByte  // `[ -/]`

  predicate InClass(c: char, cls: CharClass)
  {
    match cls
    case Space => IsSpace(c)
    case PathChar => IsPathChar(c)
    case Digit => IsDigit(c)
    case ParameterByte => InRange(c, '0' as int, '?' as int)
    case IntermediateByte => InRange(c, ' ' as int, '/' as int)
  }

  predicate InRange(c: char, lo: int, hi: int)
  {
    lo <= c as int <= hi
  }

  /** The value of a decimal digit (the parser applies it to nothing else). */
  function DigitValue(c: char): nat
  {
    if IsDigit(c) then (c as int) - ('0' as int) else 0
  }

  function LowerChar(c: char): char
  {
    if 'A' <= c <= 'Z' then (c as int + 32) as char else c
  }

  /** `str.lower`, on the letters A to Z. */
  function Lower(s: string): (r: string)
    ensures |r| == |s|
    ensures forall i :: 0 <= i < |s| ==> r[i] == LowerChar(s[i])
  {
    seq(|s|, i requires 0 <= i < |s| => LowerChar(s[i]))
  }

  function UpperChar(c: char): char
  {
    if 'a' <= c <= 'z' then (c as int - 32) as char else c
  }

  function Upper(s: string): (r: string)
    ensures |r| == |s|
    ensures forall i :: 0 <= i < |s| ==> r[i] == UpperChar(s[i])
  {
    seq(|s|, i requires 0 <= i < |s| => UpperChar(s[i]))
  }

  // ---------------------------------------------------------------------------
  // strip_ansi
  // ---------------------------------------------------------------------------

  /** Every character of `s` from `lo` up to `hi` belongs to `cls`. */
  ghost predicate AllInClass(s: string, lo: nat, hi: nat, cls: CharClass)
  {
    lo <= hi <= |s| && forall j :: lo <= j < hi ==> InClass(s[j], cls)
  }

  /** The number of characters from `i` on that all belong to `cls`. */
  function RunLength(s: string, i: nat, cls: CharClass): (k: nat)
    requires i <= |s|
    ensures i + k <= |s|
    decreases |s| - i
  {
    if i < |s| && InClass(s[i], cls) then 1 + RunLength(s, i + 1, cls) else 0
  }

  /** The run is greedy: every character in it belongs to `cls`, and the character after it, if any, does not. */
  lemma {:induction false} RunLengthMaximal(s: string, i: nat, cls: CharClass)
    requires i <= |s|
    ensures AllInClass(s, i, i + RunLength(s, i, cls), cls)
    ensures i + RunLength(s, i, cls) < |s| ==> !InClass(s[i + RunLength(s, i, cls)], cls)
    decreases |s| - i
  {
    if i < |s| && InClass(s[i], cls) {
      RunLengthMaximal(s, i + 1, cls);
    }
  }

  /** A run of characters that all belong to `cls` and that the next character, if any, ends: that is the run `RunLength` measures. */
  lemma {:induction false} RunLengthExact(s: string, i: nat, k: nat, cls: CharClass)
    requires AllInClass(s, i, i + k, cls)
    requires i + k < |s| ==> !InClass(s[i + k], cls)
    ensures RunLength(s, i, cls) == k
    decreases k
  {
    if k > 0 {
      RunLengthExact(s, i + 1, k - 1, cls);
    }
  }

  /**
    The length of the match of `\x1B(?:[@-Z\-_]|[0-?]*[ -/]*[@-~])` at the start
    of `s`, or 0 when there is none. The three classes of the second
    alternative are disjoint, so the greedy runs are the only way it can match.
  */
  function AnsiMatchLength(s: string): (n: nat)
    ensures n <= |s|
    ensures n > 0 ==> n >= 2 && s[0] == Esc
  {
    if s == [] || s[0] != Esc then 0
    else if |s| >= 2 && (InRange(s[1], '@' as int, 'Z' as int) || s[1] == '-' || s[1] == '_') then 2
    else
      var params := RunLength(s, 1, ParameterByte);
      var inter := RunLength(s, 1 + params, IntermediateByte);
      var last := 1 + params + inter;
      if last < |s| && InRange(s[last], '@' as int, '~' as int) then last + 1 else 0
  }

  /**
    The pattern has no `\[` after the escape character, so a colour sequence
    `ESC [ 3 1 m` is matched as the two characters `ESC [` alone: its
    parameters stay in the line, and a coloured finding's path keeps them as
    a prefix.
  */
  lemma ColourParametersSurvive(rest: string)
    ensures StripAnsi([Esc, '['] + (['3'] + (['1'] + (['m'] + rest)))) == ['3'] + (['1'] + (['m'] + StripAnsi(rest)))
  {
    StripAnsiKeeps('m', rest);
    StripAnsiKeeps('1', ['m'] + rest);
    StripAnsiKeeps('3', ['1'] + (['m'] + rest));
    EscBracketAlone(['3'] + (['1'] + (['m'] + rest)));
  }

  /** `ESC [` is a whole match of the pattern, whatever follows it, and is removed. */
  lemma EscBracketAlone(t: string)
    ensures StripAnsi([Esc, '['] + t) == StripAnsi(t)
  {
    var s := [Esc, '['] + t;
    assert s[0] == Esc && s[1] == '[';
    assert AnsiMatchLength(s) == 2;
    assert s[2..] == t;
  }

  /** A character other than ESC starts no escape sequence and is kept. */
  lemma StripAnsiKeeps(c: char, rest: string)
    requires c != Esc
    ensures StripAnsi([c] + rest) == [c] + StripAnsi(rest)
  {
    assert ([c] + rest)[1..] == rest;
  }

  /**
    `strip_ansi`: every escape sequence the pattern matches is removed, scanning
    from left to right. The result is never longer than the text, and a text
    without an escape character comes back unchanged.
  */
  function StripAnsi(s: string): (r: string)
    ensures |r| <= |s|
    ensures (forall i :: 0 <= i < |s| ==> s[i] != Esc) ==> r == s
    decreases |s|
  {
    if s == [] then []
    else
      var n := AnsiMatchLength(s);
      if n > 0 then StripAnsi(s[n..])
      else [s[0]] + StripAnsi(s[1..])
  }

  // ---------------------------------------------------------------------------
  // FINDING_PATTERN
  // ---------------------------------------------------------------------------

  /** The first two groups of a match: the path and the digits of the line number. */
  datatype Finding = Finding(path: string, digits: string)

  /** The value of a string of decimal digits. */
  function DecimalValue(ds: string): nat
  {
    if ds == [] then 0 else 10 * DecimalValue(ds[..|ds| - 1]) + DigitValue(ds[|ds| - 1])
  }

  /**
    The most digits CPython's `int` converts from a string
    (`sys.int_info.default_max_str_digits`); leading zeros count.
  */
  const MaxStrDigits: nat := 4300

  /**
    `int(match.group(2))`: the value of the digits, or `None` where `int`
    raises `ValueError` because the string has more than `MaxStrDigits` digits.
  */
  function LineNumber(digits: string): (r: Option<nat>)
    ensures r.None? <==> |digits| > MaxStrDigits
    ensures r.Some? ==> r.value == DecimalValue(digits)
  {
    if |digits| > MaxStrDigits then None else Some(DecimalValue(digits))
  }

  /** Leading zeros do not change the value of a digit string, only its length. */
  lemma {:induction false} DecimalValueLeadingZeros(z: nat, ds: string)
    ensures DecimalValue(seq(z, _ => '0') + ds) == DecimalValue(ds)
    decreases |ds|
  {
    var zeros := seq(z, _ => '0');
    if ds == [] {
      assert zeros + ds == zeros;
      ZerosValue(z);
    } else {
      var init := ds[..|ds| - 1];
      assert (zeros + ds)[..|zeros + ds| - 1] == zeros + init;
      DecimalValueLeadingZeros(z, init);
    }
  }

  lemma {:induction false} ZerosValue(z: nat)
    ensures DecimalValue(seq(z, _ => '0')) == 0
  {
    if z > 0 {
      assert seq(z, _ => '0')[..z - 1] == seq(z - 1, _ => '0');
      ZerosValue(z - 1);
    }
  }

  /**
    `FINDING_PATTERN.match`, `^\s*([^:\s]+):(\d+)(?::(\d+))?`, reduced to its
    first two groups: the path and the digits of the line number. The column
    group is never used, and its absence never stops a match.
  */
  function ParseFinding(s: string): (r: Option<Finding>)
    ensures r.Some? ==> r.value.path != [] && ':' !in r.value.path
  {
    var spaces := RunLength(s, 0, Space);
    RunLengthMaximal(s, spaces, PathChar);
    var pathLength := RunLength(s, spaces, PathChar);
    var colon := spaces + pathLength;
    if pathLength == 0 || colon == |s| || s[colon] != ':' then None
    else
      var digits := RunLength(s, colon + 1, Digit);
      if digits == 0 then None
      else Some(Finding(s[spaces..colon], s[colon + 1..colon + 1 + digits]))
  }

  /**
    The pattern matches at the start of `s` with its path group from `spaces`
    to `colon` and its line group from `colon + 1` to `end`: whitespace up to
    `spaces`, a non-empty path, a colon, and a non-empty run of digits that the
    next character, if any, does not continue.
  */
  ghost predicate MatchesAt(s: string, spaces: nat, colon: nat, end: nat)
  {
    && AllInClass(s, 0, spaces, Space)
    && spaces < colon && AllInClass(s, spaces, colon, PathChar)
    && colon < |s| && s[colon] == ':'
    && colon + 1 < end && AllInClass(s, colon + 1, end, Digit)
    && (end < |s| ==> !IsDigit(s[end]))
  }

  /** What the parser returns is a match of the pattern, with the same groups. */
  lemma ParseFindingSound(s: string)
    requires ParseFinding(s).Some?
    ensures exists spaces: nat, colon: nat, end: nat ::
              && MatchesAt(s, spaces, colon, end)
              && ParseFinding(s).value == Finding(s[spaces..colon], s[colon + 1..end])
  {
    var spaces := RunLength(s, 0, Space);
    var colon := spaces + RunLength(s, spaces, PathChar);
    var end := colon + 1 + RunLength(s, colon + 1, Digit);
    RunLengthMaximal(s, 0, Space);
    RunLengthMaximal(s, spaces, PathChar);
    RunLengthMaximal(s, colon + 1, Digit);
    assert ParseFinding(s).value == Finding(s[spaces..colon], s[colon + 1..end]);
    assert MatchesAt(s, spaces, colon, end);
  }

  /** Wherever the pattern matches, the parser returns its groups. */
  lemma ParseFindingComplete(s: string, spaces: nat, colon: nat, end: nat)
    requires MatchesAt(s, spaces, colon, end)
    ensures ParseFinding(s) == Some(Finding(s[spaces..colon], s[colon + 1..end]))
  {
    assert !IsSpace(s[spaces]);
    RunLengthExact(s, 0, spaces, Space);
    RunLengthExact(s, spaces, colon - spaces, PathChar);
    RunLengthExact(s, colon + 1, end - (colon + 1), Digit);
  }

  /** The characters of `t` from `lo` to `hi` all belong to `cls` when they spell a string `u` whose characters all do. */
  lemma AllInClassSlice(t: string, lo: nat, hi: nat, u: string, cls: CharClass)
    requires lo <= hi <= |t| && t[lo..hi] == u
    requires forall i :: 0 <= i < |u| ==> InClass(u[i], cls)
    ensures AllInClass(t, lo, hi, cls)
  {
    forall j | lo <= j < hi
      ensures InClass(t[j], cls)
    {
      assert t[j] == u[j - lo];
    }
  }

  /** A plain `path:digits` line parses to that path and those digits. */
  lemma PlainFindingParses(path: string, ds: string)
    requires path != [] && forall i :: 0 <= i < |path| ==> IsPathChar(path[i])
    requires ds != [] && forall i :: 0 <= i < |ds| ==> IsDigit(ds[i])
    ensures ParseFinding(path + ":" + ds) == Some(Finding(path, ds))
  {
    var s := path + ":" + ds;
    var colon := |path|;
    assert s[0..colon] == path && s[colon] == ':' && s[colon + 1..|s|] == ds;
    AllInClassSlice(s, 0, colon, path, PathChar);
    AllInClassSlice(s, colon + 1, |s|, ds, Digit);
    ParseFindingComplete(s, 0, colon, |s|);
  }

  /**
    A finding coloured with `ESC [ 3 1 m` parses, once stripped, with the path
    `31m` followed by its own path: the filter then looks up a file that is not
    the one the finding names.
  */
  lemma ColouredFindingPath(path: string, ds: string)
    requires path != [] && forall i :: 0 <= i < |path| ==> IsPathChar(path[i]) && path[i] != Esc
    requires ds != [] && forall i :: 0 <= i < |ds| ==> IsDigit(ds[i])
    ensures ParseFinding(StripAnsi([Esc, '['] + (['3'] + (['1'] + (['m'] + (path + ":" + ds)))))) ==
              Some(Finding("31m" + path, ds))
  {
    ColourParametersSurvive(path + ":" + ds);
    PlainFindingUnstripped(path, ds);
    ColouredPath(path, ds);
    PlainFindingParses("31m" + path, ds);
  }

  /** A plain finding line holds no escape character, so stripping leaves it alone. */
  lemma PlainFindingUnstripped(path: string, ds: string)
    requires forall i :: 0 <= i < |path| ==> path[i] != Esc
    requires forall i :: 0 <= i < |ds| ==> IsDigit(ds[i])
    ensures StripAnsi(path + ":" + ds) == path + ":" + ds
  {
    PlainFindingHasNoEsc(path, ds);
  }

  lemma PlainFindingHasNoEsc(path: string, ds: string)
    requires forall i :: 0 <= i < |path| ==> path[i] != Esc
    requires forall i :: 0 <= i < |ds| ==> IsDigit(ds[i])
    ensures forall i :: 0 <= i < |path + ":" + ds| ==> (path + ":" + ds)[i] != Esc
  {
    var line := path + ":" + ds;
    forall i | 0 <= i < |line|
      ensures line[i] != Esc
    {
      if i < |path| {
        assert line[i] == path[i];
      } else if i > |path| {
        assert line[i] == ds[i - |path| - 1];
      }
    }
  }

  /** The stripped coloured line is the plain finding line for the path `31m` followed by `path`. */
  lemma ColouredPath(path: string, ds: string)
    requires forall i :: 0 <= i < |path| ==> IsPathChar(path[i])
    ensures ['3'] + (['1'] + (['m'] + (path + ":" + ds))) == "31m" + path + ":" + ds
    ensures forall i :: 0 <= i < |"31m" + path| ==> IsPathChar(("31m" + path)[i])
  {
    var coloured := "31m" + path;
    forall i | 0 <= i < |coloured|
      ensures IsPathChar(coloured[i])
    {
      if i >= 3 {
        assert coloured[i] == path[i - 3];
      }
    }
  }

  /** A line parses as a finding for `path` with line digits `ds` exactly when the pattern matches it with those groups. */
  lemma ParseFindingSpec(s: string, path: string, ds: string)
    ensures ParseFinding(s) == Some(Finding(path, ds)) <==>
              exists spaces: nat, colon: nat, end: nat ::
                MatchesAt(s, spaces, colon, end) && path == s[spaces..colon] && ds == s[colon + 1..end]
  {
    if ParseFinding(s) == Some(Finding(path, ds)) {
      ParseFindingSound(s);
    }
    if spaces: nat, colon: nat, end: nat :| MatchesAt(s, spaces, colon, end) && path == s[spaces..colon] && ds == s[colon + 1..end] {
      ParseFindingComplete(s, spaces, colon, end);
    }
  }

  // ---------------------------------------------------------------------------
  // has_suppression
  // ---------------------------------------------------------------------------

  const SuppressionMarkers: seq<string> := ["ubs:ignore", "ubs: disable", "nolint", "noqa"]

  /** `needle` occurs in `hay` at offset `i`. */
  ghost predicate OccursAt(hay: string, needle: string, i: int)
  {
    0 <= i <= |hay| - |needle| && hay[i..i + |needle|] == needle
  }

  /** `needle in hay` for strings. */
  predicate Contains(hay: string, needle: string)
    ensures Contains(hay, needle) ==> |needle| <= |hay|
    decreases |hay|
  {
    if needle <= hay then true
    else if hay == [] then false
    else Contains(hay[1..], needle)
  }

  lemma OccursAtStart(hay: string, needle: string)
    ensures OccursAt(hay, needle, 0) <==> needle <= hay
  {
    if needle <= hay {
      assert hay[0..|needle|] == needle;
    }
  }

  lemma OccursAtShift(hay: string, needle: string, i: nat)
    requires hay != []
    ensures OccursAt(hay[1..], needle, i) <==> OccursAt(hay, needle, i + 1)
  {
    if i + |needle| <= |hay| - 1 {
      assert hay[1..][i..i + |needle|] == hay[i + 1..i + 1 + |needle|];
    }
  }

  /** `Contains` is substring search: it holds exactly when `needle` occurs somewhere in `hay`. */
  lemma {:induction false} ContainsSpec(hay: string, needle: string)
    ensures Contains(hay, needle) <==> exists i :: OccursAt(hay, needle, i)
    decreases |hay|
  {
    OccursAtStart(hay, needle);
    if !(needle <= hay) && hay != [] {
      var tail := hay[1..];
      ContainsSpec(tail, needle);
      if i :| OccursAt(tail, needle, i) {
        OccursAtShift(hay, needle, i);
      }
      if i :| OccursAt(hay, needle, i) {
        OccursAtShift(hay, needle, i - 1);
      }
    }
  }

  /**
    `has_suppression`: the lower-cased line contains one of the markers; an
    empty line never does, nor does any line shorter than the shortest marker.
  */
  predicate HasSuppression(line: string)
    ensures HasSuppression(line) ==> |line| >= 4
  {
    if line == "" then false
    else exists m :: m in SuppressionMarkers && Contains(Lower(line), m)
  }

  /** `line` holds marker `m` at offset `i`, once the letters A to Z in it are lower-cased. */
  ghost predicate MarkerAt(line: string, m: string, i: int)
  {
    m in SuppressionMarkers && 0 <= i <= |line| - |m| && Lower(line[i..i + |m|]) == m
  }

  lemma LowerSlice(line: string, i: nat, j: nat)
    requires i <= j <= |line|
    ensures Lower(line)[i..j] == Lower(line[i..j])
  {}

  /**
    A line carries a suppression marker exactly when some stretch of it, with
    the letters A to Z lower-cased, is one of the markers.
  */
  lemma HasSuppressionSpec(line: string)
    ensures HasSuppression(line) <==> exists m, i :: MarkerAt(line, m, i)
  {
    var lower := Lower(line);
    if HasSuppression(line) {
      var m :| m in SuppressionMarkers && Contains(lower, m);
      ContainsSpec(lower, m);
      var i :| OccursAt(lower, m, i);
      LowerSlice(line, i, i + |m|);
      assert MarkerAt(line, m, i);
    }
    if m, i :| MarkerAt(line, m, i) {
      LowerSlice(line, i, i + |m|);
      assert OccursAt(lower, m, i);
      ContainsSpec(lower, m);
      assert line != "";
    }
  }

  lemma LowerOfUpper(x: string)
    ensures Lower(Upper(x)) == Lower(x)
  {
    assert forall j :: 0 <= j < |x| ==> LowerChar(UpperChar(x[j])) == LowerChar(x[j]);
  }

  /** The markers are all lower-case, so the test ignores case: upper-casing a line does not change it. */
  lemma SuppressionIgnoresCase(line: string)
    ensures HasSuppression(Upper(line)) == HasSuppression(line)
  {
    var upper := Upper(line);
    HasSuppressionSpec(line);
    HasSuppressionSpec(upper);
    forall m: string, i | 0 <= i <= |line| - |m|
      ensures MarkerAt(upper, m, i) <==> MarkerAt(line, m, i)
    {
      assert upper[i..i + |m|] == Upper(line[i..i + |m|]);
      LowerOfUpper(line[i..i + |m|]);
    }
  }

  // ---------------------------------------------------------------------------
  // Keeping and dropping lines
  // ---------------------------------------------------------------------------

  /** The readable files and their lines. */
  type FileSystem = map<string, seq<string>>

  /** What reading `path` gives: its lines, or `None` for a path that is not a readable file. */
  function ReadLines(files: FileSystem, path: string): Option<seq<string>>
  {
    if path in files then Some(files[path]) else None
  }

  /**
    A finding at line `lineNo` of a file with `content` is suppressed when the
    file has lines and line `lineNo` or line `lineNo - 1` exists and carries a
    marker. A missing or empty file never suppresses.
  */
  predicate Suppressed(content: Option<seq<string>>, lineNo: nat)
    ensures content.None? || content == Some([]) ==> !Suppressed(content, lineNo)
  {
    match content
    case None => false
    case Some(lines) =>
      var idx: int := lineNo - 1;
      && lines != []
      && (|| (0 <= idx < |lines| && HasSuppression(lines[idx]))
          || (0 <= idx - 1 < |lines| && HasSuppression(lines[idx - 1])))
  }

  /** A marker on the line at index `m` covers the findings at lines `m + 1` and `m + 2` (numbered from 1), and no others. */
  lemma SuppressionReach(lines: seq<string>, lineNo: nat)
    ensures Suppressed(Some(lines), lineNo) <==>
              exists m :: 0 <= m < |lines| && HasSuppression(lines[m]) && (lineNo == m + 1 || lineNo == m + 2)
  {
    if m :| 0 <= m < |lines| && HasSuppression(lines[m]) && (lineNo == m + 1 || lineNo == m + 2) {
      assert lines != [];
    }
  }

  /** The file and line number a finding refers to. */
  datatype Target = Target(path: string, lineNo: nat)

  /**
    What the loop of `main` makes of `line` before it looks at any file: the
    ANSI escapes are stripped, the finding pattern is matched and the line
    number converted. Nothing, for a line that does not match or whose line
    number `int` rejects.
  */
  function FindingTarget(line: string): Option<Target>
  {
    match ParseFinding(StripAnsi(line))
    case None => None
    case Some(f) =>
      match LineNumber(f.digits)
      case None => None
      case Some(n) => Some(Target(f.path, n))
  }

  /**
    Whether the filter writes `line`: every line is written except a finding
    that is suppressed. A finding whose line number `int` rejects is written
    as it is, like a line that is not a finding.
  */
  predicate Keeps(files: FileSystem, line: string)
    ensures ParseFinding(StripAnsi(line)).None? ==> Keeps(files, line)
  {
    match FindingTarget(line)
    case None => true
    case Some(t) => !Suppressed(ReadLines(files, t.path), t.lineNo)
  }

  /** The lines of `lines` that `keep` accepts, verbatim and in their order. */
  function Select(lines: seq<string>, keep: string -> bool): (out: seq<string>)
    ensures |out| <= |lines|
  {
    if lines == [] then []
    else (if keep(lines[0]) then [lines[0]] else []) + Select(lines[1..], keep)
  }

  /** The decision is made line by line: selecting from a stream in two pieces gives the same output as selecting from it whole. */
  lemma {:induction false} SelectAppend(a: seq<string>, b: seq<string>, keep: string -> bool)
    ensures Select(a + b, keep) == Select(a, keep) + Select(b, keep)
  {
    if a == [] {
      assert a + b == b;
    } else {
      var head := if keep(a[0]) then [a[0]] else [];
      assert (a + b)[0] == a[0];
      assert (a + b)[1..] == a[1..] + b;
      assert Select(a + b, keep) == head + Select(a[1..] + b, keep);
      SelectAppend(a[1..], b, keep);
      assert Select(a, keep) == head + Select(a[1..], keep);
    }
  }

  /**
    Each accepted line comes out as often as it goes in, and a rejected line
    never comes out: the decision depends on the line's text alone.
  */
  lemma {:induction false} SelectCounts(lines: seq<string>, keep: string -> bool, x: string)
    ensures multiset(Select(lines, keep))[x] == if keep(x) then multiset(lines)[x] else 0
  {
    if lines != [] {
      var head := if keep(lines[0]) then [lines[0]] else [];
      SelectCounts(lines[1..], keep, x);
      assert multiset(Select(lines, keep)) == multiset(head) + multiset(Select(lines[1..], keep));
      assert lines == [lines[0]] + lines[1..];
      assert multiset(lines) == multiset([lines[0]]) + multiset(lines[1..]);
    }
  }

  /** A line is in the output exactly when it is in the input and is accepted. */
  lemma SelectMembers(lines: seq<string>, keep: string -> bool, x: string)
    ensures x in Select(lines, keep) <==> x in lines && keep(x)
  {
    SelectCounts(lines, keep, x);
  }

  /** A stream every line of which is accepted comes out unchanged. */
  lemma {:induction false} SelectAll(lines: seq<string>, keep: string -> bool)
    requires forall i :: 0 <= i < |lines| ==> keep(lines[i])
    ensures Select(lines, keep) == lines
  {
    if lines != [] {
      SelectAll(lines[1..], keep);
    }
  }

  /** The filter's output for `lines`: the lines it keeps, verbatim and in their order. */
  function Filtered(files: FileSystem, lines: seq<string>): seq<string>
  {
    Select(lines, line => Keeps(files, line))
  }

  /** A stream none of whose findings can be suppressed (none refers to a readable, non-empty file) comes out unchanged. */
  lemma UnsuppressibleStreamPassesThrough(files: FileSystem, lines: seq<string>)
    requires forall i :: 0 <= i < |lines| ==>
               ParseFinding(StripAnsi(lines[i])).None? ||
               ReadLines(files, ParseFinding(StripAnsi(lines[i])).value.path) in {None, Some([])}
    ensures Filtered(files, lines) == lines
  {
    var keep := line => Keeps(files, line);
    forall i | 0 <= i < |lines|
      ensures keep(lines[i])
    {
      assert Keeps(files, lines[i]);
    }
    SelectAll(lines, keep);
  }

  /** The path of the file the filter looks up for `line`: that of a finding whose line number `int` accepts. */
  ghost function FindingPath(line: string): Option<string>
  {
    match FindingTarget(line)
    case None => None
    case Some(t) => Some(t.path)
  }

  /** The paths of all findings in `lines`. */
  ghost function FindingPaths(lines: seq<string>): set<string>
  {
    if lines == [] then {}
    else
      FindingPaths(lines[..|lines| - 1]) +
        match FindingPath(lines[|lines| - 1])
        case None => {}
        case Some(p) => {p}
  }

  lemma FilteredSnoc(files: FileSystem, lines: seq<string>, k: nat)
    requires k < |lines|
    ensures Keeps(files, lines[k]) ==> Filtered(files, lines[..k + 1]) == Filtered(files, lines[..k]) + [lines[k]]
    ensures !Keeps(files, lines[k]) ==> Filtered(files, lines[..k + 1]) == Filtered(files, lines[..k])
  {
    SelectAppend(lines[..k], [lines[k]], line => Keeps(files, line));
    assert lines[..k + 1] == lines[..k] + [lines[k]];
    assert [lines[k]][1..] == [];
  }

  lemma FindingPathsSnoc(lines: seq<string>, k: nat)
    requires k < |lines|
    ensures FindingPath(lines[k]).None? ==> FindingPaths(lines[..k + 1]) == FindingPaths(lines[..k])
    ensures FindingPath(lines[k]).Some? ==>
              FindingPaths(lines[..k + 1]) == FindingPaths(lines[..k]) + {FindingPath(lines[k]).value}
  {
    assert lines[..k + 1][..k] == lines[..k];
  }

  /**
    A finding whose line number has more than `MaxStrDigits` digits is written
    unchanged, whatever its file holds, and its file is not looked up.
  */
  lemma OverlongLineNumberKept(files: FileSystem, line: string)
    requires ParseFinding(StripAnsi(line)).Some?
    requires |ParseFinding(StripAnsi(line)).value.digits| > MaxStrDigits
    ensures Keeps(files, line)
    ensures FindingPath(line).None?
  {}

  /**
    Leading zeros can carry a small line number past the digit limit: the
    finding `path:000...01`, with `MaxStrDigits` zeros, names line 1, yet it is
    written even when line 1 of `path` carries a marker.
  */
  lemma LeadingZerosPassThrough(files: FileSystem, path: string)
    requires path != [] && forall i :: 0 <= i < |path| ==> IsPathChar(path[i]) && path[i] != Esc
    ensures var ds := seq(MaxStrDigits, _ => '0') + "1";
            && DecimalValue(ds) == 1
            && Keeps(files, path + ":" + ds)
  {
    var ds := seq(MaxStrDigits, _ => '0') + "1";
    DecimalValueLeadingZeros(MaxStrDigits, "1");
    forall i | 0 <= i < |ds|
      ensures IsDigit(ds[i])
    {
      if i < MaxStrDigits {
        assert ds[i] == '0';
      }
    }
    PlainFindingUnstripped(path, ds);
    PlainFindingParses(path, ds);
    OverlongLineNumberKept(files, path + ":" + ds);
  }

  /**
    The loop of `main`: each line is written unless it is a suppressed finding;
    each file is read on the first finding that refers to it and its lines (or
    `None`) are kept in a cache for later findings. `fileReads` counts the
    reads: there are as many as there are distinct paths among the findings, so
    each of them is read exactly once, and the output does not depend on which
    finding for a file comes first.
  */
  method FilterStream(lines: seq<string>, files: FileSystem) returns (output: seq<string>, ghost fileReads: nat)
    ensures output == Filtered(files, lines)
    ensures fileReads == |FindingPaths(lines)|
  {
    var fileCache: map<string, Option<seq<string>>> := map[];
    output := [];
    fileReads := 0;
    for k := 0 to |lines|
      invariant output == Filtered(files, lines[..k])
      invariant forall p :: p in fileCache ==> fileCache[p] == ReadLines(files, p)
      invariant fileCache.Keys == FindingPaths(lines[..k])
      invariant fileReads == |fileCache|
    {
      var line := lines[k];
      FilteredSnoc(files, lines, k);
      FindingPathsSnoc(lines, k);
      var target := FindingTarget(line);
      if target.None? {
        output := output + [line];
        continue;
      }
      var filePath, lineNo := target.value.path, target.value.lineNo;
      if filePath !in fileCache {
        fileCache := fileCache[filePath := ReadLines(files, filePath)];
        fileReads := fileReads + 1;
      }
      assert fileCache.Keys == FindingPaths(lines[..k + 1]);
      var content := fileCache[filePath];
      var suppressed := Suppressed(content, lineNo);
      if !suppressed {
        output := output + [line];
      }
    }
    assert lines[..|lines|] == lines;
  }
}
