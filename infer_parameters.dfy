/** The log-to-command builder of scripts/infer_parameters_visualization.py:
    it reads the log the segmenter printed, collects the blocks of
    `lower: N upper: M` lines that follow the `Get segmentation after` header,
    and builds one visualize_ship_landing.py argument list per block.

    The log is given as its lines without line terminators; reading the file,
    printing and running the calls are left out. The regular expressions are
    modelled by hand: with the patterns used, each match is unique. */
module InferParameters {
  import opened Wrappers
  import opened Decimal

  /*************************
   * Text helpers
   *************************/

  predicate StartsWith(s: string, p: string)
  {
    |p| <= |s| && s[..|p|] == p
  }

  predicate OccursAt(s: string, p: string, i: nat)
  {
    i + |p| <= |s| && s[i..i + |p|] == p
  }

  /** `p in s` */
  predicate Contains(s: string, p: string)
  {
    exists i: nat :: i <= |s| && OccursAt(s, p, i)
  }

  /** The characters Python's `\s` and `str.strip` treat as white space. */
  predicate IsSpace(c: char)
  {
    var n := c as int;
    (9 <= n <= 13) || (28 <= n <= 32) || n == 0x85 || n == 0xA0 || n == 0x1680 ||
    (0x2000 <= n <= 0x200A) || n == 0x2028 || n == 0x2029 || n == 0x202F || n == 0x205F || n == 0x3000
  }

  /** The number of leading white-space characters. */
  function SpaceRun(s: string): (r: nat)
    ensures r <= |s|
  {
    if |s| > 0 && IsSpace(s[0]) then 1 + SpaceRun(s[1..]) else 0
  }

  /** The number of leading ASCII digits. */
  function DigitRun(s: string): (r: nat)
    ensures r <= |s|
    ensures forall k :: 0 <= k < r ==> IsDigit(s[k])
  {
    if |s| > 0 && IsDigit(s[0]) then 1 + DigitRun(s[1..]) else 0
  }

  /** The run of digits in front of s, as text. */
  function LeadingDigits(s: string): (ds: string)
    ensures AllDigits(ds)
  {
    s[..DigitRun(s)]
  }

  /** `str.strip()` */
  function Strip(s: string): (r: string)
    ensures |r| <= |s|
  {
    RStrip(s[SpaceRun(s)..])
  }

  function RStrip(s: string): (r: string)
    ensures |r| <= |s|
  {
    if |s| > 0 && IsSpace(s[|s| - 1]) then RStrip(s[..|s| - 1]) else s
  }

  /** `s[:-4]` */
  function DropExtension(s: string): string
  {
    if |s| >= 4 then s[..|s| - 4] else ""
  }

  /** The position after the last '/', 0 when there is none. */
  function AfterLastSlash(s: string): (r: nat)
    ensures r <= |s|
  {
    if |s| == 0 then 0
    else if s[|s| - 1] == '/' then |s|
    else AfterLastSlash(s[..|s| - 1])
  }

  function RStripSlash(s: string): string
  {
    if |s| > 0 && s[|s| - 1] == '/' then RStripSlash(s[..|s| - 1]) else s
  }

  /** `os.path.dirname` on POSIX: everything up to the last '/', with its
      trailing slashes removed unless it is made of slashes only. */
  function Dirname(p: string): string
  {
    var head := p[..AfterLastSlash(p)];
    if |head| > 0 && exists k :: 0 <= k < |head| && head[k] != '/' then RStripSlash(head) else head
  }

  /*************************
   * The two patterns
   *************************/

  type Seg = (nat, nat)

  /** `lower:(\s+)(\d+)(\s+)upper:(\s+)(\d+)(.*)` matched at the start of s:
      every `+` must take its whole run, since the next item needs another
      kind of character. */
  function MatchLower(s: string): Option<Seg>
  {
    if !StartsWith(s, "lower:") then None else MatchBounds(s[6..])
  }

  /** `(\s+)(\d+)(\s+)` and the upper part. */
  function MatchBounds(r1: string): Option<Seg>
  {
    var w1 := SpaceRun(r1);
    var r2 := r1[w1..];
    var d1 := DigitRun(r2);
    var r3 := r2[d1..];
    var w2 := SpaceRun(r3);
    if w1 == 0 || d1 == 0 || w2 == 0 then None
    else
      match MatchUpper(r3[w2..])
      case None => None
      case Some(u) => Some((DigitsToNat(LeadingDigits(r2)), u))
  }

  /** `upper:(\s+)(\d+)(.*)` */
  function MatchUpper(r4: string): Option<nat>
  {
    if !StartsWith(r4, "upper:") then None
    else
      var r5 := r4[6..];
      var w3 := SpaceRun(r5);
      var r6 := r5[w3..];
      var d2 := DigitRun(r6);
      if w3 == 0 || d2 == 0 then None else Some(DigitsToNat(LeadingDigits(r6)))
  }

  /** `re.search`: the leftmost position from p on where the pattern matches. */
  function SearchLower(s: string, p: nat): Option<Seg>
    requires p <= |s|
    decreases |s| - p
  {
    if MatchLower(s[p..]).Some? then MatchLower(s[p..])
    else if p == |s| then None
    else SearchLower(s, p + 1)
  }

  /** `(digits)` starting at q. */
  predicate ParenAt(s: string, q: nat)
  {
    q < |s| && s[q] == '(' && var d := DigitRun(s[q + 1..]);
    d >= 1 && q + 1 + d < |s| && s[q + 1 + d] == ')'
  }

  /** `(.*)\((\d+)\)(.*)`: the greedy `.*` leaves the last `(digits)` of the
      line to the group, so the value is that of the rightmost one before q. */
  function LastParen(s: string, q: nat): Option<nat>
    requires q <= |s|
  {
    if q == 0 then None
    else if ParenAt(s, q - 1) then Some(DigitsToNat(LeadingDigits(s[q..])))
    else LastParen(s, q - 1)
  }

  predicate IsHeader(line: string)
  {
    StartsWith(line, "Get segmentation after")
  }

  predicate IsGreedy(line: string)
  {
    StartsWith(Strip(line), "Is greedy:")
  }

  predicate IsLower(line: string)
  {
    StartsWith(line, "lower:")
  }

  /*************************
   * The parse, as functions
   *************************/

  /** The header: the first line from line 1 on (line 0 is always skipped). */
  function HeaderFrom(lines: seq<string>, j: nat): (r: Option<nat>)
    decreases |lines| - j
    ensures r.Some? ==> j <= r.value < |lines|
  {
    if j >= |lines| then None
    else if IsHeader(lines[j]) then Some(j)
    else HeaderFrom(lines, j + 1)
  }

  function Header(lines: seq<string>): Option<nat>
  {
    HeaderFrom(lines, 1)
  }

  /** HeaderFrom finds the first header line from j on. */
  lemma {:induction false} HeaderFromSpec(lines: seq<string>, j: nat)
    decreases |lines| - j
    ensures var r := HeaderFrom(lines, j);
            (r.Some? ==> IsHeader(lines[r.value]) && forall k :: j <= k < r.value ==> !IsHeader(lines[k])) &&
            (r.None? ==> forall k :: j <= k < |lines| ==> !IsHeader(lines[k]))
  {
    if j < |lines| && !IsHeader(lines[j]) {
      HeaderFromSpec(lines, j + 1);
    }
  }

  /** A line up to the header is a header line exactly when it is the header. */
  lemma HeaderAt(lines: seq<string>, i: nat)
    requires 1 <= i < |lines|
    requires Header(lines).None? || i <= Header(lines).value
    ensures IsHeader(lines[i]) <==> Header(lines) == Some(i)
  {
    HeaderFromSpec(lines, 1);
  }

  /** An `Is greedy:` line that carries a `(N)`. */
  predicate GreedyLine(l: string)
  {
    IsGreedy(l) && LastParen(l, |l|).Some?
  }

  /** The value of the last `Is greedy:` line of lines[from..last] carrying a
      `(N)`, 0 when none. */
  function GreedyLast(lines: seq<string>, from: nat, last: nat): nat
    requires from <= last <= |lines|
    decreases last
  {
    if last == from then 0
    else
      var l := lines[last - 1];
      if IsGreedy(l) && LastParen(l, |l|).Some? then LastParen(l, |l|).value else GreedyLast(lines, from, last - 1)
  }

  /** The bounds a `lower:` line yields: the leftmost match of the pattern. */
  function LowerMatch(line: string): Option<Seg>
  {
    SearchLower(line, 0)
  }

  /** The closed blocks and the block still open after lines[from..last];
      None once a `lower:` line does not match. The line parser is a
      parameter (LowerMatch in the script) so that the block structure can be
      reasoned about apart from the text pattern. */
  function Collect(lines: seq<string>, from: nat, last: nat, parse: string -> Option<Seg>): Option<(seq<seq<Seg>>, seq<Seg>)>
    requires from <= last <= |lines|
    decreases last
  {
    if last == from then Some(([], []))
    else
      var line := lines[last - 1];
      match Collect(lines, from, last - 1, parse)
      case None => None
      case Some(st) =>
        if IsLower(line) then
          (match parse(line)
           case None => None
           case Some(seg) => Some((st.0, st.1 + [seg])))
        else Some((if st.1 != [] then st.0 + [st.1] else st.0, []))
  }

  /** The behaviour: the first of these names in the file name, in this order. */
  function Behavior(filename: string): Option<string>
  {
    if Contains(filename, "Lateral") then Some("Lateral")
    else if Contains(filename, "45Deg") then Some("45Deg")
    else if Contains(filename, "Oblique") then Some("Oblique")
    else if Contains(filename, "Straight") then Some("Straight")
    else None
  }

  /** `f'{behavior}'` */
  function BehaviorText(b: Option<string>): string
  {
    if b.Some? then b.value else "None"
  }

  function OutPath(filename: string, i: nat): string
  {
    DropExtension(filename) + (if i == 0 then "_best" else "_a" + NatToString(i))
  }

  /** The `-s` arguments: the upper bounds of all segments but the last. */
  function Boundaries(block: seq<Seg>): (r: seq<string>)
    ensures |r| == if |block| == 0 then 0 else |block| - 1
    ensures forall j :: 0 <= j < |r| ==> r[j] == NatToString(block[j].1)
  {
    if |block| <= 1 then [] else seq(|block| - 1, j requires 0 <= j < |block| - 1 => NatToString(block[j].1))
  }

  function Call(filename: string, i: nat, block: seq<Seg>, behavior: Option<string>, skipped: nat): seq<string>
  {
    ["python3", "visualize_ship_landing.py", "-l", Dirname(filename), "-b", BehaviorText(behavior), "-s"] +
    Boundaries(block) + ["-p", OutPath(filename, i), "-e", NatToString(skipped), "plot"]
  }

  function Calls(filename: string, blocks: seq<seq<Seg>>, behavior: Option<string>, skipped: nat): (r: seq<seq<string>>)
    ensures |r| == |blocks|
  {
    seq(|blocks|, i requires 0 <= i < |blocks| => Call(filename, i, blocks[i], behavior, skipped))
  }

  /** What build_call returns: None where the script exits on a malformed
      `lower:` line; no calls without a header. */
  function BuildCallSpec(filename: string, lines: seq<string>): Option<seq<seq<string>>>
  {
    match Header(lines)
    case None => Some([])
    case Some(h) =>
      var from := if h + 2 <= |lines| then h + 2 else |lines|;
      match Collect(lines, from, |lines|, LowerMatch)
      case None => None
      case Some(st) => Some(Calls(filename, st.0, Behavior(filename), GreedyLast(lines, 1, h + 1)))
  }

  /*************************
   * build_call
   *************************/

  lemma {:induction false} CollectNoneGrows(lines: seq<string>, from: nat, last: nat, last': nat, parse: string -> Option<Seg>)
    requires from <= last <= last' <= |lines| && Collect(lines, from, last, parse).None?
    ensures Collect(lines, from, last', parse).None?
    decreases last' - last
  {
    if last' > last {
      CollectNoneGrows(lines, from, last, last' - 1, parse);
    }
  }

  /** The argument lists for the blocks, built as the script does. */
  method MakeCalls(filename: string, blocks: seq<seq<Seg>>, behavior: Option<string>, skipped: nat)
    returns (calls: seq<seq<string>>)
    ensures calls == Calls(filename, blocks, behavior, skipped)
  {
    calls := [];
    for i := 0 to |blocks|
      invariant |calls| == i
      invariant forall k :: 0 <= k < i ==> calls[k] == Call(filename, k, blocks[k], behavior, skipped)
    {
      var call := MakeCall(filename, i, blocks[i], behavior, skipped);
      calls := calls + [call];
    }
  }

  /** The body of the block loop: the argument list of block i. */
  method MakeCall(filename: string, i: nat, segments: seq<Seg>, behavior: Option<string>, skipped: nat)
    returns (call: seq<string>)
    ensures call == Call(filename, i, segments, behavior, skipped)
  {
    var out := DropExtension(filename) + "_best";
    if i != 0 {
      out := DropExtension(filename) + "_a" + NatToString(i);
    }
    call := ["python3", "visualize_ship_landing.py", "-l", Dirname(filename), "-b", BehaviorText(behavior), "-s"];
    var segmentStr := SegmentStrings(segments);
    assert out == OutPath(filename, i);
    call := call + segmentStr + ["-p", out, "-e", NatToString(skipped), "plot"];
  }

  /** The `segment_str` loop: the upper bound of every segment but the last,
      in order. */
  method SegmentStrings(segments: seq<Seg>) returns (segmentStr: seq<string>)
    ensures segmentStr == Boundaries(segments)
  {
    segmentStr := [];
    for j := 0 to |segments|
      invariant |segmentStr| == (if j < |segments| then j else if j == 0 then 0 else |segments| - 1)
      invariant forall k :: 0 <= k < |segmentStr| ==> segmentStr[k] == NatToString(segments[k].1)
    {
      if j != |segments| - 1 {
        segmentStr := segmentStr + [NatToString(segments[j].1)];
      }
    }
  }

  /** build_call: scan the log, then one argument list per block. */
  method BuildCall(filename: string, lines: seq<string>) returns (calls: Option<seq<seq<string>>>)
    ensures calls == BuildCallSpec(filename, lines)
  {
    var scanned := ScanLog(lines, LowerMatch);
    if scanned.None? {
      return None;
    }
    var behavior := Behavior(filename);
    var built := MakeCalls(filename, scanned.value.0, behavior, scanned.value.1);
    calls := Some(built);
  }

  /** The line loop of build_call: the skipped-entries count from the
      `Is greedy:` lines before the header, the header itself and the line
      after it skipped, then the blocks of `lower:` lines, read with parse.
      None where the script exits on a `lower:` line that does not match. */
  method ScanLog(lines: seq<string>, parse: string -> Option<Seg>) returns (scanned: Option<(seq<seq<Seg>>, nat)>)
    ensures Header(lines).None? ==>
              scanned.Some? && scanned.value.0 == [] && scanned.value.1 == if |lines| == 0 then 0 else GreedyLast(lines, 1, |lines|)
    ensures Header(lines).Some? ==>
              var h := Header(lines).value;
              var from := if h + 2 <= |lines| then h + 2 else |lines|;
              scanned == match Collect(lines, from, |lines|, parse)
                         case None => None
                         case Some(st) => Some((st.0, GreedyLast(lines, 1, h + 1)))
  {
    var readResult := false;
    var skip := true;
    var allSegments: seq<seq<Seg>> := [];
    var segments: seq<Seg> := [];
    var skipped: nat := 0;
    ghost var h := Header(lines);
    for i := 0 to |lines|
      invariant readResult <==> (h.Some? && h.value < i)
      invariant skip <==> (i == 0 || (h.Some? && i == h.value + 1))
      invariant !readResult ==> skipped == (if i == 0 then 0 else GreedyLast(lines, 1, i))
      invariant readResult ==> skipped == GreedyLast(lines, 1, h.value + 1)
      invariant readResult && i >= h.value + 2 ==> Collect(lines, h.value + 2, i, parse) == Some((allSegments, segments))
      invariant !(readResult && i >= h.value + 2) ==> allSegments == [] && segments == []
    {
      var line := lines[i];
      if skip {
        skip := false;
        continue;
      }
      if readResult {
        if IsLower(line) {
          var m := parse(line);
          if m.Some? {
            segments := segments + [m.value];
          } else {
            CollectNoneGrows(lines, h.value + 2, i + 1, |lines|, parse);
            return None;
          }
        } else {
          if segments != [] {
            allSegments := allSegments + [segments];
          }
          segments := [];
        }
      } else {
        HeaderAt(lines, i);
        if IsGreedy(line) {
          var m := LastParen(line, |line|);
          if m.Some? {
            skipped := m.value;
          }
        }
        if IsHeader(line) {
          readResult := true;
          skip := true;
        }
      }
    }
    scanned := Some((allSegments, skipped));
  }

  /*************************
   * Properties
   *************************/

  lemma {:induction false} SpaceRunOf(sp: string, t: string)
    requires forall k :: 0 <= k < |sp| ==> IsSpace(sp[k])
    requires |t| == 0 || !IsSpace(t[0])
    ensures SpaceRun(sp + t) == |sp|
  {
    if |sp| > 0 {
      assert (sp + t)[1..] == sp[1..] + t;
      SpaceRunOf(sp[1..], t);
    } else {
      assert sp + t == t;
    }
  }

  lemma {:induction false} DigitRunOf(ds: string, t: string)
    requires forall k :: 0 <= k < |ds| ==> IsDigit(ds[k])
    requires |t| == 0 || !IsDigit(t[0])
    ensures DigitRun(ds + t) == |ds|
  {
    if |ds| > 0 {
      assert (ds + t)[1..] == ds[1..] + t;
      DigitRunOf(ds[1..], t);
    } else {
      assert ds + t == t;
    }
  }

  /** Runs of ASCII blanks, as a width-10 format field pads. */
  predicate Blanks(sp: string)
  {
    |sp| >= 1 && forall k :: 0 <= k < |sp| ==> sp[k] == ' '
  }

  /** The printed number in front of a non-digit is read back whole. */
  lemma NumberThen(n: nat, t: string)
    requires |t| == 0 || !IsDigit(t[0])
    ensures var s := NatToString(n) + t;
            DigitRun(s) == |NatToString(n)| && s[|NatToString(n)|..] == t &&
            DigitsToNat(LeadingDigits(s)) == n
  {
    var ns := NatToString(n);
    DigitRunOf(ns, t);
    assert (ns + t)[..|ns|] == ns;
    ParsePrinted(n);
  }

  lemma UpperRoundTrip(p3: string, b: nat, rest: string)
    requires Blanks(p3)
    requires |rest| == 0 || !IsDigit(rest[0])
    ensures MatchUpper("upper:" + (p3 + (NatToString(b) + rest))) == Some(b)
  {
    var nb := NatToString(b);
    var r6 := nb + rest;
    var r4 := "upper:" + (p3 + r6);
    assert StartsWith(r4, "upper:") && r4[6..] == p3 + r6;
    assert SpaceRun(p3 + r6) == |p3| by {
      assert IsDigit(nb[0]);
      SpaceRunOf(p3, r6);
    }
    assert (p3 + r6)[|p3|..] == r6;
    NumberThen(b, rest);
  }

  lemma BoundsRoundTrip(p1: string, a: nat, p2: string, t: string)
    requires Blanks(p1) && Blanks(p2)
    requires |t| > 0 && !IsSpace(t[0]) && MatchUpper(t).Some?
    ensures MatchBounds(p1 + (NatToString(a) + (p2 + t))) == Some((a, MatchUpper(t).value))
  {
    var na := NatToString(a);
    var r3 := p2 + t;
    var r2 := na + r3;
    assert SpaceRun(p1 + r2) == |p1| by {
      assert IsDigit(na[0]);
      SpaceRunOf(p1, r2);
    }
    assert (p1 + r2)[|p1|..] == r2;
    assert r3[0] == ' ';
    NumberThen(a, r3);
    assert SpaceRun(r3) == |p2| by {
      SpaceRunOf(p2, t);
    }
    assert r3[|p2|..] == t;
  }

  /** A line that print_segmentation writes, `lower:` and `upper:` each followed by a width-10 field,
      is read back with the same bounds. */
  lemma LowerLineRoundTrip(p1: string, a: nat, p2: string, p3: string, b: nat, rest: string)
    requires Blanks(p1) && Blanks(p2) && Blanks(p3)
    requires |rest| == 0 || !IsDigit(rest[0])
    ensures var line := "lower:" + (p1 + (NatToString(a) + (p2 + ("upper:" + (p3 + (NatToString(b) + rest))))));
            IsLower(line) && LowerMatch(line) == Some((a, b))
  {
    var t := "upper:" + (p3 + (NatToString(b) + rest));
    UpperRoundTrip(p3, b, rest);
    BoundsRoundTrip(p1, a, p2, t);
    var line := "lower:" + (p1 + (NatToString(a) + (p2 + t)));
    assert line[..6] == "lower:" && line[6..] == p1 + (NatToString(a) + (p2 + t));
    assert line[0..] == line;
  }

  /** k is the rightmost `(digits)` starting before q. */
  predicate RightmostParen(s: string, q: nat, k: nat)
  {
    k < q && ParenAt(s, k) && forall k' :: k < k' < q ==> !ParenAt(s, k')
  }

  /** LastParen yields None exactly when no `(digits)` occurs before q, and
      otherwise the digits of the rightmost one. */
  lemma LastParenSpec(s: string, q: nat)
    requires q <= |s|
    ensures LastParen(s, q).None? <==> forall k :: 0 <= k < q ==> !ParenAt(s, k)
    ensures LastParen(s, q).Some? ==>
              exists k :: RightmostParen(s, q, k) && LastParen(s, q).value == DigitsToNat(LeadingDigits(s[k + 1..]))
  {
    LastParenNone(s, q);
    if LastParen(s, q).Some? {
      LastParenSome(s, q);
    }
  }

  lemma {:induction false} LastParenNone(s: string, q: nat)
    requires q <= |s|
    ensures LastParen(s, q).None? <==> forall k :: 0 <= k < q ==> !ParenAt(s, k)
  {
    if q > 0 && !ParenAt(s, q - 1) {
      LastParenNone(s, q - 1);
      assert LastParen(s, q) == LastParen(s, q - 1);
    }
  }

  lemma {:induction false} LastParenSome(s: string, q: nat)
    requires q <= |s| && LastParen(s, q).Some?
    ensures exists k :: RightmostParen(s, q, k) && LastParen(s, q).value == DigitsToNat(LeadingDigits(s[k + 1..]))
  {
    assert q > 0;
    if !ParenAt(s, q - 1) {
      var v := LastParen(s, q - 1);
      assert LastParen(s, q) == v;
      LastParenSome(s, q - 1);
      var k :| RightmostParen(s, q - 1, k) && v.value == DigitsToNat(LeadingDigits(s[k + 1..]));
      RightmostExtend(s, q, k);
    } else {
      LastParenHit(s, q);
      assert RightmostParen(s, q, q - 1);
      assert s[q - 1 + 1..] == s[q..];
    }
  }

  lemma RightmostExtend(s: string, q: nat, k: nat)
    requires 0 < q && RightmostParen(s, q - 1, k) && !ParenAt(s, q - 1)
    ensures RightmostParen(s, q, k)
  {
  }

  /** A `(digits)` just before q is the one LastParen reports. */
  lemma LastParenHit(s: string, q: nat)
    requires 0 < q <= |s| && ParenAt(s, q - 1)
    ensures LastParen(s, q) == Some(DigitsToNat(LeadingDigits(s[q..])))
  {
  }

  /** lines[j] is the last greedy line of lines[..last]. */
  predicate LastGreedyLine(lines: seq<string>, j: nat, last: nat)
    requires last <= |lines|
  {
    j < last && GreedyLine(lines[j]) && forall j' :: j < j' < last ==> !GreedyLine(lines[j'])
  }

  /** GreedyLast is the value of the last `Is greedy:` line of lines[from..last]
      that carries a `(N)`, or 0 when there is none. */
  lemma GreedyLastSpec(lines: seq<string>, from: nat, last: nat)
    requires from <= last <= |lines|
    ensures (forall j :: from <= j < last ==> !GreedyLine(lines[j])) ==> GreedyLast(lines, from, last) == 0
    ensures (exists j :: from <= j < last && GreedyLine(lines[j])) ==>
              exists j :: from <= j && LastGreedyLine(lines, j, last) &&
                GreedyLast(lines, from, last) == LastParen(lines[j], |lines[j]|).value
  {
    GreedyLastNone(lines, from, last);
    if exists j :: from <= j < last && GreedyLine(lines[j]) {
      var j0 :| from <= j0 < last && GreedyLine(lines[j0]);
      GreedyLastSome(lines, from, last, j0);
    }
  }

  lemma {:induction false} GreedyLastNone(lines: seq<string>, from: nat, last: nat)
    requires from <= last <= |lines|
    ensures (forall j :: from <= j < last ==> !GreedyLine(lines[j])) ==> GreedyLast(lines, from, last) == 0
    decreases last
  {
    if last > from && forall j :: from <= j < last ==> !GreedyLine(lines[j]) {
      assert !GreedyLine(lines[last - 1]);
      GreedyLastNone(lines, from, last - 1);
    }
  }

  lemma {:induction false} GreedyLastSome(lines: seq<string>, from: nat, last: nat, j0: nat)
    requires from <= j0 < last <= |lines| && GreedyLine(lines[j0])
    ensures exists j :: from <= j && LastGreedyLine(lines, j, last) &&
              GreedyLast(lines, from, last) == LastParen(lines[j], |lines[j]|).value
    decreases last
  {
    GreedyLastStep(lines, from, last);
    if GreedyLine(lines[last - 1]) {
      assert LastGreedyLine(lines, last - 1, last);
    } else {
      GreedyLastSome(lines, from, last - 1, j0);
      var j :| from <= j && LastGreedyLine(lines, j, last - 1) &&
                GreedyLast(lines, from, last - 1) == LastParen(lines[j], |lines[j]|).value;
      LastGreedyExtend(lines, j, last);
    }
  }

  lemma GreedyLastStep(lines: seq<string>, from: nat, last: nat)
    requires from < last <= |lines|
    ensures GreedyLast(lines, from, last) ==
              if GreedyLine(lines[last - 1]) then LastParen(lines[last - 1], |lines[last - 1]|).value
              else GreedyLast(lines, from, last - 1)
  {
  }

  lemma LastGreedyExtend(lines: seq<string>, j: nat, last: nat)
    requires 0 < last <= |lines| && LastGreedyLine(lines, j, last - 1) && !GreedyLine(lines[last - 1])
    ensures LastGreedyLine(lines, j, last)
  {
  }

  function Flatten(bs: seq<seq<Seg>>): seq<Seg>
  {
    if |bs| == 0 then [] else Flatten(bs[..|bs| - 1]) + bs[|bs| - 1]
  }

  /** The bounds of every `lower:` line of lines[from..last], in order. */
  function LowerPairs(lines: seq<string>, from: nat, last: nat, parse: string -> Option<Seg>): seq<Seg>
    requires from <= last <= |lines|
    decreases last
  {
    if last == from then []
    else
      var line := lines[last - 1];
      LowerPairs(lines, from, last - 1, parse) +
        (if IsLower(line) && parse(line).Some? then [parse(line).value] else [])
  }

  lemma FlattenSnoc(bs: seq<seq<Seg>>, b: seq<Seg>)
    ensures Flatten(bs + [b]) == Flatten(bs) + b
  {
    assert (bs + [b])[..|bs|] == bs;
  }

  /** A `lower:` line on which the pattern does not match. */
  predicate BadLower(line: string, parse: string -> Option<Seg>)
  {
    IsLower(line) && parse(line).None?
  }

  /** One step of Collect, as a relation between the states before and after. */
  lemma CollectStep(lines: seq<string>, from: nat, last: nat, parse: string -> Option<Seg>)
    requires from < last <= |lines|
    ensures var line := lines[last - 1];
            var c := Collect(lines, from, last - 1, parse);
            Collect(lines, from, last, parse) ==
              if c.None? || BadLower(line, parse) then None
              else if IsLower(line) then Some((c.value.0, c.value.1 + [parse(line).value]))
              else Some((if c.value.1 != [] then c.value.0 + [c.value.1] else c.value.0, []))
  {
  }

  /** Collect fails exactly when some `lower:` line does not match. */
  lemma {:induction false} CollectNone(lines: seq<string>, from: nat, last: nat, parse: string -> Option<Seg>)
    requires from <= last <= |lines|
    ensures Collect(lines, from, last, parse).None? <==> exists j :: from <= j < last && BadLower(lines[j], parse)
    decreases last
  {
    if last > from {
      CollectNone(lines, from, last - 1, parse);
      CollectStep(lines, from, last, parse);
      var c := Collect(lines, from, last - 1, parse);
      if c.None? {
        var j :| from <= j < last - 1 && BadLower(lines[j], parse);
        assert from <= j < last && BadLower(lines[j], parse);
      } else if BadLower(lines[last - 1], parse) {
        assert from <= last - 1 < last && BadLower(lines[last - 1], parse);
      } else {
        assert Collect(lines, from, last, parse).Some?;
        forall j | from <= j < last
          ensures !BadLower(lines[j], parse)
        {
          if j < last - 1 {
            assert !(from <= j < last - 1 && BadLower(lines[j], parse));
          }
        }
      }
    }
  }

  /** When Collect succeeds, no block it closes is empty. */
  lemma {:induction false} CollectNonEmpty(lines: seq<string>, from: nat, last: nat, parse: string -> Option<Seg>)
    requires from <= last <= |lines| && Collect(lines, from, last, parse).Some?
    ensures var st := Collect(lines, from, last, parse).value;
            forall k :: 0 <= k < |st.0| ==> |st.0[k]| > 0
    decreases last
  {
    if last > from {
      CollectStep(lines, from, last, parse);
      CollectNonEmpty(lines, from, last - 1, parse);
    }
  }

  /** When Collect succeeds, the closed blocks followed by the open one hold
      the bounds of all `lower:` lines, in order. */
  lemma {:induction false} CollectFlatten(lines: seq<string>, from: nat, last: nat, parse: string -> Option<Seg>)
    requires from <= last <= |lines| && Collect(lines, from, last, parse).Some?
    ensures var st := Collect(lines, from, last, parse).value;
            Flatten(st.0) + st.1 == LowerPairs(lines, from, last, parse)
    decreases last
  {
    if last > from {
      CollectStep(lines, from, last, parse);
      var line := lines[last - 1];
      CollectFlatten(lines, from, last - 1, parse);
      var st := Collect(lines, from, last - 1, parse).value;
      var st' := Collect(lines, from, last, parse).value;
      var lp := LowerPairs(lines, from, last - 1, parse);
      if IsLower(line) {
        var seg := parse(line).value;
        assert LowerPairs(lines, from, last, parse) == lp + [seg];
        assert Flatten(st.0) + (st.1 + [seg]) == (Flatten(st.0) + st.1) + [seg];
      } else {
        assert LowerPairs(lines, from, last, parse) == lp + [];
        if st.1 != [] {
          FlattenSnoc(st.0, st.1);
        }
      }
    }
  }

  /** After a line that is not a `lower:` line no block is open. */
  lemma CollectClosed(lines: seq<string>, from: nat, last: nat, parse: string -> Option<Seg>)
    requires from < last <= |lines| && Collect(lines, from, last, parse).Some?
    requires !IsLower(lines[last - 1])
    ensures Collect(lines, from, last, parse).value.1 == []
  {
    CollectStep(lines, from, last, parse);
  }

  /** One argument list: the fixed head, one `-s` value per segment boundary,
      and the tail with the output path and the skipped entries. */
  lemma CallShape(filename: string, i: nat, block: seq<Seg>, behavior: Option<string>, skipped: nat)
    requires |block| > 0
    ensures var c := Call(filename, i, block, behavior, skipped);
            |c| == 11 + |block| &&
            c[3] == Dirname(filename) && c[5] == BehaviorText(behavior) && c[6] == "-s" &&
            (forall j :: 0 <= j < |block| - 1 ==> c[7 + j] == NatToString(block[j].1)) &&
            c[|c| - 5] == "-p" && c[|c| - 4] == OutPath(filename, i) &&
            c[|c| - 3] == "-e" && c[|c| - 2] == NatToString(skipped) && c[|c| - 1] == "plot"
  {
    var head := ["python3", "visualize_ship_landing.py", "-l", Dirname(filename), "-b", BehaviorText(behavior), "-s"];
    var mid := Boundaries(block);
    var tail := ["-p", OutPath(filename, i), "-e", NatToString(skipped), "plot"];
    var c := Call(filename, i, block, behavior, skipped);
    assert c == head + mid + tail;
    assert |head| == 7 && |mid| == |block| - 1 && |tail| == 5;
    forall j | 0 <= j < |block| - 1
      ensures c[7 + j] == NatToString(block[j].1)
    {
      assert c[7 + j] == mid[j];
    }
    assert c[|c| - 5..] == tail;
  }

  /** The first block goes to `<name>_best`, block i > 0 to `<name>_a<i>`. */
  lemma OutPaths(filename: string, i: nat)
    ensures OutPath(filename, 0) == DropExtension(filename) + "_best"
    ensures i > 0 ==> OutPath(filename, i) == DropExtension(filename) + "_a" + NatToString(i)
  {
  }

  /** A path "dir/name" with dir not ending in '/' lies in dir; a bare name in "". */
  lemma DirnameSimple(p: string, k: nat)
    requires 0 < k < |p| && p[k] == '/' && p[k - 1] != '/'
    requires forall j :: k < j < |p| ==> p[j] != '/'
    ensures Dirname(p) == p[..k]
  {
    assert AfterLastSlash(p) == k + 1 by {
      AfterLastSlashSpec(p);
    }
    var head := p[..k + 1];
    assert head[k - 1] != '/';
    assert head[..|head| - 1] == p[..k];
    assert RStripSlash(head) == RStripSlash(p[..k]);
    assert p[..k][k - 1] != '/';
    assert RStripSlash(p[..k]) == p[..k];
  }

  lemma {:induction false} AfterLastSlashSpec(s: string)
    ensures forall k :: AfterLastSlash(s) <= k < |s| ==> s[k] != '/'
    ensures AfterLastSlash(s) > 0 ==> s[AfterLastSlash(s) - 1] == '/'
  {
    if |s| > 0 && s[|s| - 1] != '/' {
      AfterLastSlashSpec(s[..|s| - 1]);
    }
  }

  lemma {:induction false} DirnameBare(p: string)
    requires forall j :: 0 <= j < |p| ==> p[j] != '/'
    ensures Dirname(p) == ""
  {
    AfterLastSlashSpec(p);
  }
}
