/** The "managed by softfig" stamp of a copied dot (crates/softfig-deploy/src/stamp.rs). */
module Stamp {
  import opened Paths
  import opened Utf8

  const LF: byte := 0x0A
  const CR: byte := 0x0D
  const HEAD_LENGTH := 512
  const HEAD_LINES := 3

  /** The marker substring; its dash is U+2014. */
  const MARKER: Bytes := Ascii("managed by softfig ") + [0xE2, 0x80, 0x94] + Ascii(" edits will be overwritten")

  // ---- the comment leader ---------------------------------------------------

  /** Where the last dot of `name` is, if it has one. */
  function LastDot(name: string): (at: Option<nat>)
    ensures at.Some? ==> at.value < |name| && name[at.value] == '.' && '.' !in name[at.value + 1..]
    ensures at.None? ==> '.' !in name
  {
    if name == [] then None
    else if name[|name| - 1] == '.' then Some(|name| - 1)
    else
      var at := LastDot(name[..|name| - 1]);
      assert at.Some? ==> name[at.value + 1..] == name[..|name| - 1][at.value + 1..] + [name[|name| - 1]];
      at
  }

  /** `Path::extension`: what follows the last dot, unless that dot leads the name. */
  function Extension(name: string): string {
    match LastDot(name)
    case Some(at) => if at == 0 then "" else name[at + 1..]
    case None => ""
  }

  function Lower(s: string): string {
    seq(|s|, i requires 0 <= i < |s| => if 'A' <= s[i] <= 'Z' then ((s[i] as int) + 32) as char else s[i])
  }

  const SLASHED := {"rs", "c", "h", "cpp", "cc", "js", "ts", "go", "java"}
  const HASHED := {"sh", "bash", "zsh", "fish", "py", "rb", "pl", "toml", "yaml", "yml", "conf", "cfg", "ini", "txt",
                   "env", "service", "target", "timer", "socket", "rules", "gitignore", ""}
  const DASHED := {"lua", "sql", "hs"}

  /** `comment_leader` for a target's file name. */
  function CommentLeader(name: string): (leader: Option<Bytes>)
    ensures leader.Some? ==> IsLeader(leader.value)
  {
    var ext := Lower(Extension(name));
    if ext in SLASHED then Some(['/' as byte, '/' as byte])
    else if ext in HASHED then Some(['#' as byte])
    else if ext in DASHED then Some(['-' as byte, '-' as byte])
    else None
  }

  /** The extension is what follows the last dot; a name that is a dot and a word, or has
      no dot, has none. */
  lemma ExtensionIs(stem: string, ext: string)
    requires '.' !in ext
    ensures Extension(stem + "." + ext) == if stem == [] then "" else ext
    ensures Extension(ext) == ""
  {
    LastDotIs(stem, ext);
    BehindDot(stem, ext);
    NoLastDot(ext);
  }

  lemma BehindDot(stem: string, ext: string)
    ensures (stem + "." + ext)[|stem| + 1..] == ext
  {
  }

  lemma NoLastDot(name: string)
    requires '.' !in name
    ensures LastDot(name).None?
  {
  }

  lemma {:induction false} LastDotIs(stem: string, ext: string)
    requires '.' !in ext
    ensures LastDot(stem + "." + ext) == Some(|stem|)
    decreases |ext|
  {
    var name := stem + "." + ext;
    if ext == [] {
      assert name[|name| - 1] == '.';
    } else {
      var shorter := ext[..|ext| - 1];
      LastDotIs(stem, shorter);
      assert name[..|name| - 1] == stem + "." + shorter;
      assert name[|name| - 1] == ext[|ext| - 1] && ext[|ext| - 1] in ext;
    }
  }

  /** A leader is one or two ASCII characters, and with the space after it never reads `#!`. */
  predicate IsLeader(leader: Bytes) {
    && 1 <= |leader| <= 2
    && (forall c | c in leader :: c < 0x80 && c != LF && c != CR && c != 'm' as byte && c != '!' as byte)
  }

  // ---- composing --------------------------------------------------------------

  function StampLead(leader: Bytes): Bytes {
    leader + Ascii(" ") + MARKER
  }

  function StampLine(leader: Bytes, rel: Bytes): Bytes {
    StampLead(leader) + Ascii(" (source: config/source/") + rel + Ascii(")\n")
  }

  function IndexOf(b: Bytes, c: byte): (at: Option<nat>)
    ensures at.Some? ==> at.value < |b| && b[at.value] == c && c !in b[..at.value]
    ensures at.None? ==> c !in b
  {
    if b == [] then None
    else if b[0] == c then Some(0)
    else
      match IndexOf(b[1..], c)
      case None => None
      case Some(at) =>
        assert b[..at + 1] == [b[0]] + b[1..][..at];
        Some(at + 1)
  }

  predicate HasShebang(source: Bytes) {
    [0x23, 0x21] <= source
  }

  /** Where the stamp goes: after a shebang line that ends, else in front. */
  function InsertAt(source: Bytes): (at: nat)
    ensures at <= |source|
  {
    if HasShebang(source) && IndexOf(source, LF).Some? then IndexOf(source, LF).value + 1 else 0
  }

  function Inserted(source: Bytes, stamp: Bytes): Bytes {
    source[..InsertAt(source)] + stamp + source[InsertAt(source)..]
  }

  /** The bytes a copy deploy writes. */
  function Composed(name: string, source: Bytes, rel: Bytes): Bytes {
    match CommentLeader(name)
    case None => source
    case Some(leader) => Inserted(source, StampLine(leader, rel))
  }

  /** `compose_copy`, appending to the output buffer as the source does. */
  method ComposeCopy(name: string, source: Bytes, rel: Bytes) returns (out: Bytes, stamped: bool)
    ensures out == Composed(name, source, rel)
    ensures stamped <==> CommentLeader(name).Some?
    ensures !stamped ==> out == source
  {
    match CommentLeader(name) {
      case None =>
        return source, false;
      case Some(leader) =>
        out := InsertStamp(source, StampLine(leader, rel));
        return out, true;
    }
  }

  /** The stamp behind a shebang line that ends, else in front. */
  method InsertStamp(source: Bytes, stamp: Bytes) returns (out: Bytes)
    ensures out == Inserted(source, stamp)
  {
    if HasShebang(source) {
      var nl := 0;
      while nl < |source| && source[nl] != LF
        invariant nl <= |source| && LF !in source[..nl]
      {
        nl := nl + 1;
      }
      if nl < |source| {
        FirstIndex(source, LF, nl);
        out := source[..nl + 1];
        out := out + stamp;
        out := out + source[nl + 1..];
        return;
      }
      assert source[..nl] == source;
    }
    out := stamp;
    out := out + source;
    assert source[..0] + stamp + source[0..] == out;
  }

  lemma FirstIndex(b: Bytes, c: byte, i: nat)
    requires i < |b| && b[i] == c && c !in b[..i]
    ensures IndexOf(b, c) == Some(i)
  {
    var at := IndexOf(b, c).value;
    assert forall j | 0 <= j < i :: b[j] in b[..i];
    assert forall j | 0 <= j < at :: b[j] in b[..at];
  }

  /** Drop `n` bytes from where a stamp is put. */
  function Removed(out: Bytes, n: nat): Bytes {
    var at := InsertAt(out);
    if at + n <= |out| then out[..at] + out[at + n..] else []
  }

  /** Undo `Composed`. */
  function Unstamped(name: string, out: Bytes, rel: Bytes): Bytes {
    match CommentLeader(name)
    case None => out
    case Some(leader) => Removed(out, |StampLine(leader, rel)|)
  }

  /** A stamp that does not read as a shebang does not move the place it is put. */
  lemma InsertAtInserted(source: Bytes, stamp: Bytes)
    requires |stamp| >= 2 && stamp[1] != 0x21
    ensures InsertAt(Inserted(source, stamp)) == InsertAt(source)
  {
    var out := Inserted(source, stamp);
    if HasShebang(source) && IndexOf(source, LF).Some? {
      var nl := IndexOf(source, LF).value;
      assert source[0] == 0x23 && source[1] == 0x21;
      assert nl >= 2;
      assert out[..nl] == source[..nl] && out[nl] == LF;
      assert out[0] == source[0] && out[1] == source[1];
      FirstIndex(out, LF, nl);
    } else {
      assert out == stamp + source;
      assert out[1] == stamp[1];
    }
  }

  lemma RemovedInserted(source: Bytes, stamp: Bytes)
    requires |stamp| >= 2 && stamp[1] != 0x21
    ensures Removed(Inserted(source, stamp), |stamp|) == source
  {
    var out := Inserted(source, stamp);
    var at := InsertAt(source);
    InsertAtInserted(source, stamp);
    assert out[..at] == source[..at];
    assert out[at + |stamp|..] == source[at..];
    assert source[..at] + source[at..] == source;
  }

  /** The source can be read back from what was deployed. */
  lemma UnstampedComposed(name: string, source: Bytes, rel: Bytes)
    ensures Unstamped(name, Composed(name, source, rel), rel) == source
  {
    match CommentLeader(name)
    case None =>
    case Some(leader) =>
      LeadStart(leader);
      StampLineStarts(leader, rel, []);
      RemovedInserted(source, StampLine(leader, rel));
  }

  lemma StampLineStarts(leader: Bytes, rel: Bytes, rest: Bytes)
    ensures StampLead(leader) <= StampLine(leader, rel) + rest
    ensures StampLead(leader) <= StampLine(leader, rel)
  {
  }

  lemma LeadStart(leader: Bytes)
    requires IsLeader(leader)
    ensures |StampLead(leader)| >= 2 && StampLead(leader)[1] != 0x21
  {
    if |leader| == 1 {
      assert StampLead(leader)[1] == Ascii(" ")[0];
    } else {
      assert StampLead(leader)[1] == leader[1];
      assert leader[1] in leader;
    }
  }

  /** Copy stamping is injective for a fixed target and source name. */
  lemma ComposedInjective(name: string, first: Bytes, second: Bytes, rel: Bytes)
    requires Composed(name, first, rel) == Composed(name, second, rel)
    ensures first == second
  {
    UnstampedComposed(name, first, rel);
    UnstampedComposed(name, second, rel);
  }

  // ---- lines kept -----------------------------------------------------------------

  /** The text between line feeds, the piece behind the last one included. */
  function Split(b: Bytes): (lines: seq<Bytes>)
    ensures lines != [] && forall line | line in lines :: LF !in line
    ensures Joined(lines) == b
    decreases |b|
  {
    match IndexOf(b, LF)
    case None => [b]
    case Some(at) =>
      var rest := Split(b[at + 1..]);
      assert ([b[..at]] + rest)[1..] == rest;
      [b[..at]] + rest
  }

  function Joined(lines: seq<Bytes>): Bytes
    requires lines != []
  {
    if |lines| == 1 then lines[0] else lines[0] + [LF] + Joined(lines[1..])
  }

  lemma SplitCons(line: Bytes, rest: Bytes)
    requires LF !in line
    ensures Split(line + [LF] + rest) == [line] + Split(rest)
  {
    var b := line + [LF] + rest;
    assert b[..|line|] == line;
    FirstIndex(b, LF, |line|);
    assert b[|line| + 1..] == rest;
  }

  /** The stamp as a line: leader, marker, where the source is. */
  lemma StampIsLine(leader: Bytes, rel: Bytes, line: Bytes)
    requires IsLeader(leader) && LF !in rel
    requires line == leader + Ascii(" ") + MARKER + Ascii(" (source: config/source/") + rel + Ascii(")")
    ensures StampLine(leader, rel) == line + [LF] && LF !in line
    ensures leader <= line && Contains(line, MARKER) && Contains(line, rel)
  {
    var front, opening, back := StampLead(leader), Ascii(" (source: config/source/"), Ascii(")");
    LeadFacts(leader);
    LacksLf(" (source: config/source/");
    LacksLf(")");
    LineOfParts(front, opening, rel, back, line);
    ClosingIsLine(Ascii(")\n"), back);
    JoinsSame(front + opening + rel, Ascii(")\n"), back, [LF]);
    LeadContains(line, leader);
    LeaderLeads(leader, Ascii(" "), MARKER);
  }

  lemma LineOfParts(front: Bytes, opening: Bytes, rel: Bytes, back: Bytes, line: Bytes)
    requires LF !in front && LF !in opening && LF !in rel && LF !in back && line == front + opening + rel + back
    ensures LF !in line && front <= line && Contains(line, rel)
  {
    assert MatchesAt(line, rel, |front + opening|);
  }

  lemma ClosingIsLine(closing: Bytes, back: Bytes)
    requires closing == Ascii(")\n") && back == Ascii(")")
    ensures closing == back + [LF]
  {
  }

  lemma JoinsSame(a: Bytes, b: Bytes, c: Bytes, d: Bytes)
    requires b == c + d
    ensures a + b == a + c + d
  {
  }

  lemma LeaderLeads(leader: Bytes, space: Bytes, rest: Bytes)
    ensures leader <= leader + space + rest
  {
  }

  lemma SecondLineOf(shebang: Bytes, line: Bytes, rest: Bytes)
    requires LF !in shebang && LF !in line
    ensures Split(shebang + [LF] + (line + [LF] + rest)) == [shebang] + ([line] + Split(rest))
    ensures Split(shebang + [LF] + rest) == [shebang] + Split(rest)
  {
    SplitCons(shebang, line + [LF] + rest);
    SplitCons(line, rest);
    SplitCons(shebang, rest);
  }

  lemma OneLineInFront(source: Bytes, stamp: Bytes, line: Bytes)
    requires stamp == line + [LF] && LF !in line && InsertAt(source) == 0
    ensures Split(Inserted(source, stamp)) == Split(source)[..0] + [line] + Split(source)[0..]
  {
    InsertedInFront(source, stamp);
    SplitCons(line, source);
    assert Split(source)[..0] + [line] + Split(source)[0..] == [line] + Split(source);
  }

  lemma OneLineBehind(source: Bytes, stamp: Bytes, line: Bytes)
    requires stamp == line + [LF] && LF !in line && InsertAt(source) > 0
    ensures |Split(source)| >= 1
    ensures Split(Inserted(source, stamp)) == Split(source)[..1] + [line] + Split(source)[1..]
  {
    var at := InsertAt(source);
    var shebang, rest := source[..at - 1], source[at..];
    ShebangLine(source);
    InsertedBehind(source, stamp);
    assert stamp + rest == line + [LF] + rest;
    SecondLineOf(shebang, line, rest);
    FirstAndRest(shebang, line, Split(rest), Split(source));
  }

  lemma FirstAndRest(first: Bytes, line: Bytes, rest: seq<Bytes>, all: seq<Bytes>)
    requires all == [first] + rest
    ensures all[..1] + [line] + all[1..] == [first] + ([line] + rest)
  {
  }

  /** A stamped output is the source's lines, every one of them whole, with the stamp as a
      line of its own: behind a shebang line that ends, else in front. */
  lemma StampAddsOneLine(name: string, source: Bytes, rel: Bytes, leader: Bytes, line: Bytes)
    requires CommentLeader(name) == Some(leader) && LF !in rel
    requires line == leader + Ascii(" ") + MARKER + Ascii(" (source: config/source/") + rel + Ascii(")")
    ensures leader <= line && Contains(line, MARKER) && Contains(line, rel)
    ensures var k := if [0x23, 0x21] <= source && LF in source then 1 else 0;
            && k <= |Split(source)|
            && Split(Composed(name, source, rel)) == Split(source)[..k] + [line] + Split(source)[k..]
  {
    StampIsLine(leader, rel, line);
    if InsertAt(source) == 0 {
      OneLineInFront(source, StampLine(leader, rel), line);
    } else {
      OneLineBehind(source, StampLine(leader, rel), line);
    }
  }

  // ---- recognising --------------------------------------------------------------

  function Head(b: Bytes): Bytes {
    if |b| <= HEAD_LENGTH then b else b[..HEAD_LENGTH]
  }

  function StripCr(line: Bytes): Bytes {
    if line != [] && line[|line| - 1] == CR then line[..|line| - 1] else line
  }

  /** `str::lines`: a final line need not end; one that ends loses its CR too. */
  function Lines(b: Bytes): seq<Bytes>
    decreases |b|
  {
    if b == [] then []
    else
      match IndexOf(b, LF)
      case None => [b]
      case Some(nl) => [StripCr(b[..nl])] + Lines(b[nl + 1..])
  }

  predicate MatchesAt(b: Bytes, needle: Bytes, i: nat) {
    i + |needle| <= |b| && forall j | 0 <= j < |needle| :: b[i + j] == needle[j]
  }

  predicate Contains(b: Bytes, needle: Bytes) {
    exists i | 0 <= i <= |b| :: MatchesAt(b, needle, i)
  }

  /** One of the first `most` lines holds the marker. */
  predicate MarkedLines(lines: seq<Bytes>, most: nat) {
    exists i | 0 <= i < |lines| && i < most :: Contains(lines[i], MARKER)
  }

  /** `has_managed_stamp`. */
  predicate HasManagedStamp(b: Bytes) {
    && ValidUtf8(Head(b))
    && MarkedLines(Lines(Head(b)), HEAD_LINES)
  }

  /** The stamp's lead fits in the head, or there is no shebang line before it. */
  predicate HasRoom(source: Bytes, leader: Bytes) {
    InsertAt(source) == 0 || InsertAt(source) + |StampLead(leader)| <= HEAD_LENGTH
  }

  /** The shebang line itself carries the marker within the head. */
  predicate ShebangCarriesMarker(source: Bytes) {
    InsertAt(source) > 0 && Contains(Head(source[..InsertAt(source) - 1]), MARKER)
  }

  lemma MarkerFacts()
    ensures |MARKER| == 48 && MARKER[0] == 'm' as byte && LF !in MARKER && MARKER[47] == 'n' as byte
  {
    var front, dash, back := Ascii("managed by softfig "), [0xE2, 0x80, 0x94], Ascii(" edits will be overwritten");
    LacksLf("managed by softfig ");
    LacksLf(" edits will be overwritten");
    Spliced(front, dash, back);
  }

  lemma LacksLf(s: string)
    requires forall i | 0 <= i < |s| :: ' ' <= s[i] <= 'z'
    ensures LF !in Ascii(s)
  {
  }

  lemma Spliced(front: Bytes, dash: Bytes, back: Bytes)
    requires |front| > 0 && |back| > 0 && LF !in front && LF !in dash && LF !in back
    ensures |front + dash + back| == |front| + |dash| + |back|
    ensures (front + dash + back)[0] == front[0]
    ensures (front + dash + back)[|front| + |dash| + |back| - 1] == back[|back| - 1]
    ensures LF !in front + dash + back
  {
  }

  lemma LeadFacts(leader: Bytes)
    requires IsLeader(leader)
    ensures |StampLead(leader)| == |leader| + 49 <= 51
    ensures LF !in StampLead(leader) && StampLead(leader)[|leader| + 48] == 'n' as byte
  {
    MarkerFacts();
    var lead := StampLead(leader);
    assert lead[|leader| + 48] == MARKER[47];
    forall i | 0 <= i < |lead|
      ensures lead[i] != LF
    {
      if i < |leader| {
        assert lead[i] in leader;
      } else if i == |leader| {
        assert lead[i] == Ascii(" ")[0];
      } else {
        assert lead[i] == MARKER[i - |leader| - 1];
        assert lead[i] in MARKER;
      }
    }
  }

  /** Part of a lead holds the marker only if it is the whole lead. */
  lemma PartialLead(leader: Bytes, k: nat)
    requires IsLeader(leader) && k <= |StampLead(leader)|
    ensures Contains(StampLead(leader)[..k], MARKER) <==> k == |StampLead(leader)|
  {
    MarkerFacts();
    LeadFacts(leader);
    var lead := StampLead(leader);
    var part := lead[..k];
    var n := |leader| + 1;
    if k == |lead| {
      assert MatchesAt(part, MARKER, n);
    } else if Contains(part, MARKER) {
      var i :| 0 <= i <= |part| && MatchesAt(part, MARKER, i);
      assert part[i + 0] == MARKER[0] && i + 48 <= k < n + 48;
      LeadBeforeMarker(leader, i);
    }
  }

  lemma LeadBeforeMarker(leader: Bytes, i: nat)
    requires IsLeader(leader) && i < |leader| + 1
    ensures StampLead(leader)[i] != 'm' as byte
  {
    if i < |leader| {
      assert leader[i] in leader;
    } else {
      assert StampLead(leader)[i] == Ascii(" ")[0];
    }
  }

  lemma LeadContains(line: Bytes, leader: Bytes)
    requires StampLead(leader) <= line
    ensures Contains(line, MARKER)
  {
    var n := |leader| + 1;
    assert MatchesAt(StampLead(leader), MARKER, n);
    assert MatchesAt(line, MARKER, n);
  }

  lemma FirstLineStarts(b: Bytes, lead: Bytes)
    requires lead != [] && lead <= b && LF !in lead && lead[|lead| - 1] != CR
    ensures |Lines(b)| > 0 && lead <= Lines(b)[0]
  {
    match IndexOf(b, LF)
    case None =>
    case Some(nl) =>
      assert forall i | 0 <= i < |lead| :: b[i] == lead[i] && lead[i] in lead;
      assert nl >= |lead|;
      assert lead <= b[..nl];
      assert nl == |lead| ==> b[nl - 1] == lead[|lead| - 1];
  }

  lemma StripCrKeeps(line: Bytes, needle: Bytes)
    requires needle != [] && needle[|needle| - 1] != CR
    ensures Contains(StripCr(line), needle) <==> Contains(line, needle)
  {
    var stripped, n := StripCr(line), |needle|;
    if Contains(line, needle) {
      var i :| 0 <= i <= |line| && MatchesAt(line, needle, i);
      assert line[i + (n - 1)] == needle[n - 1];
      assert MatchesAt(stripped, needle, i);
    }
    if Contains(stripped, needle) {
      var i :| 0 <= i <= |stripped| && MatchesAt(stripped, needle, i);
      assert MatchesAt(line, needle, i);
    }
  }

  lemma LinesCons(line: Bytes, rest: Bytes)
    requires LF !in line
    ensures Lines(line + [LF] + rest) == [StripCr(line)] + Lines(rest)
  {
    var b := line + [LF] + rest;
    assert b[..|line|] == line;
    FirstIndex(b, LF, |line|);
    assert b[|line| + 1..] == rest;
  }

  lemma LinesOne(line: Bytes)
    requires LF !in line && line != []
    ensures Lines(line) == [line]
  {
  }

  lemma ShebangLine(source: Bytes)
    requires InsertAt(source) > 0
    ensures source[InsertAt(source) - 1] == LF && LF !in source[..InsertAt(source) - 1]
    ensures source == source[..InsertAt(source) - 1] + [LF] + source[InsertAt(source)..]
  {
  }

  lemma MarkedCons(line: Bytes, lines: seq<Bytes>, most: nat)
    requires most > 0
    ensures MarkedLines([line] + lines, most) <==> Contains(line, MARKER) || MarkedLines(lines, most - 1)
  {
    var all := [line] + lines;
    if Contains(line, MARKER) {
      assert Contains(all[0], MARKER);
    }
    if MarkedLines(lines, most - 1) {
      var i :| 0 <= i < |lines| && i < most - 1 && Contains(lines[i], MARKER);
      assert Contains(all[i + 1], MARKER);
    }
    if MarkedLines(all, most) && !Contains(line, MARKER) {
      var i :| 0 <= i < |all| && i < most && Contains(all[i], MARKER);
      assert Contains(lines[i - 1], MARKER);
    }
  }

  /** What the first lines show of a shebang line followed by the stamp, cut at the head. */
  lemma SecondLine(shebang: Bytes, after: Bytes, leader: Bytes)
    requires IsLeader(leader) && LF !in shebang && StampLead(leader) <= after
    ensures MarkedLines(Lines(Head(shebang + [LF] + after)), HEAD_LINES) <==>
              Contains(Head(shebang), MARKER) || |shebang| + 1 + |StampLead(leader)| <= HEAD_LENGTH
  {
    var out := shebang + [LF] + after;
    var lead := StampLead(leader);
    LeadFacts(leader);
    if |shebang| >= HEAD_LENGTH {
      assert Head(out) == Head(shebang);
      LinesOne(Head(shebang));
      MarkedCons(Head(shebang), [], HEAD_LINES);
      assert [Head(shebang)] + [] == [Head(shebang)];
    } else {
      var k := if |out| <= HEAD_LENGTH then |after| else HEAD_LENGTH - |shebang| - 1;
      assert Head(out) == shebang + [LF] + after[..k];
      LinesCons(shebang, after[..k]);
      MarkerFacts();
      StripCrKeeps(shebang, MARKER);
      MarkedCons(StripCr(shebang), Lines(after[..k]), HEAD_LINES);
      if |lead| <= k {
        assert lead <= after[..k];
        FirstLineStarts(after[..k], lead);
        LeadContains(Lines(after[..k])[0], leader);
      } else {
        assert after[..k] == lead[..k];
        PartialLead(leader, k);
        if k > 0 {
          NoLfInPrefix(lead, k);
          LinesOne(lead[..k]);
        }
      }
    }
  }

  lemma InsertedInFront(source: Bytes, stamp: Bytes)
    requires InsertAt(source) == 0
    ensures Inserted(source, stamp) == stamp + source[InsertAt(source)..]
  {
  }

  lemma InsertedBehind(source: Bytes, stamp: Bytes)
    requires InsertAt(source) > 0
    ensures LF !in source[..InsertAt(source) - 1]
    ensures Inserted(source, stamp) ==
              source[..InsertAt(source) - 1] + [LF] + (stamp + source[InsertAt(source)..])
  {
    ShebangLine(source);
  }

  lemma FrontStamped(out: Bytes, leader: Bytes)
    requires IsLeader(leader) && StampLead(leader) <= out
    ensures MarkedLines(Lines(Head(out)), HEAD_LINES)
  {
    LeadFacts(leader);
    FirstLineStarts(Head(out), StampLead(leader));
    LeadContains(Lines(Head(out))[0], leader);
  }

  lemma NoLfInPrefix(b: Bytes, k: nat)
    requires LF !in b && k <= |b|
    ensures LF !in b[..k]
  {
    assert forall i | 0 <= i < k :: b[..k][i] == b[i] && b[i] in b;
  }

  lemma InsertedMarkedIff(source: Bytes, stamp: Bytes, leader: Bytes)
    requires IsLeader(leader) && StampLead(leader) <= stamp
    ensures MarkedLines(Lines(Head(Inserted(source, stamp))), HEAD_LINES) <==>
              HasRoom(source, leader) || ShebangCarriesMarker(source)
  {
    var at := InsertAt(source);
    var after := stamp + source[at..];
    assert StampLead(leader) <= after;
    if at == 0 {
      InsertedInFront(source, stamp);
      FrontStamped(after, leader);
    } else {
      InsertedBehind(source, stamp);
      SecondLine(source[..at - 1], after, leader);
    }
  }

  /** A stamped output is recognised exactly when its head is valid UTF-8 and the
      shebang line leaves room for the marker (or quotes the marker itself). */
  lemma RecognisedIff(name: string, source: Bytes, rel: Bytes, leader: Bytes)
    requires CommentLeader(name) == Some(leader)
    ensures HasManagedStamp(Composed(name, source, rel)) <==>
              ValidUtf8(Head(Composed(name, source, rel))) && (HasRoom(source, leader) || ShebangCarriesMarker(source))
  {
    StampLineStarts(leader, rel, []);
    InsertedMarkedIff(source, StampLine(leader, rel), leader);
  }

  /** How many of the first `i` bytes are line feeds. */
  function LineFeeds(b: Bytes, i: nat): nat
    requires i <= |b|
  {
    if i == 0 then 0 else LineFeeds(b, i - 1) + (if b[i - 1] == LF then 1 else 0)
  }

  lemma {:induction false} NoLineFeeds(line: Bytes, rest: Bytes, i: nat)
    requires LF !in line && i <= |line|
    ensures LineFeeds(line + rest, i) == 0
  {
    if i > 0 {
      NoLineFeeds(line, rest, i - 1);
      assert (line + rest)[i - 1] == line[i - 1] && line[i - 1] in line;
    }
  }

  lemma {:induction false} LineFeedsBehind(line: Bytes, rest: Bytes, i: nat)
    requires LF !in line && i <= |rest|
    ensures LineFeeds(line + [LF] + rest, |line| + 1 + i) == 1 + LineFeeds(rest, i)
  {
    var b := line + [LF] + rest;
    if i == 0 {
      assert b == line + ([LF] + rest) && b[|line|] == LF;
      NoLineFeeds(line, [LF] + rest, |line|);
    } else {
      LineFeedsBehind(line, rest, i - 1);
      assert b[|line| + i] == rest[i - 1];
    }
  }

  /** The marker is at `i`, with fewer than `most` line feeds before it. */
  predicate MarkAt(b: Bytes, i: nat, most: nat) {
    i <= |b| && MatchesAt(b, MARKER, i) && LineFeeds(b, i) < most
  }

  lemma MatchInLine(line: Bytes, rest: Bytes, needle: Bytes, i: nat)
    requires LF !in needle && i <= |line|
    ensures MatchesAt(line + [LF] + rest, needle, i) <==> MatchesAt(line, needle, i)
  {
    var b, m := line + [LF] + rest, |line|;
    if i + |needle| > m {
      assert needle[m - i] in needle && b[i + (m - i)] == LF;
    } else {
      assert b[i..i + |needle|] == line[i..i + |needle|];
      MatchIsSlice(b, needle, i);
      MatchIsSlice(line, needle, i);
    }
  }

  lemma MatchBehind(line: Bytes, rest: Bytes, needle: Bytes, i: nat)
    ensures MatchesAt(line + [LF] + rest, needle, |line| + 1 + i) <==> MatchesAt(rest, needle, i)
  {
    var b, k := line + [LF] + rest, |line| + 1 + i;
    if i + |needle| <= |rest| {
      assert b[k..k + |needle|] == rest[i..i + |needle|];
      MatchIsSlice(b, needle, k);
      MatchIsSlice(rest, needle, i);
    }
  }

  lemma MatchIsSlice(b: Bytes, needle: Bytes, i: nat)
    requires i + |needle| <= |b|
    ensures MatchesAt(b, needle, i) <==> b[i..i + |needle|] == needle
  {
    if b[i..i + |needle|] == needle {
      assert forall j | 0 <= j < |needle| :: b[i..i + |needle|][j] == needle[j];
    }
  }

  /** A marker in a text of several lines is in the first or behind it. */
  lemma MarkAtCons(line: Bytes, rest: Bytes, most: nat, i: nat)
    requires LF !in line && most > 0
    ensures MarkAt(line + [LF] + rest, i, most) <==>
              if i <= |line| then MatchesAt(line, MARKER, i)
              else MarkAt(rest, i - |line| - 1, most - 1)
  {
    MarkerFacts();
    if i <= |line| {
      MatchInLine(line, rest, MARKER, i);
      assert line + [LF] + rest == line + ([LF] + rest);
      NoLineFeeds(line, [LF] + rest, i);
    } else {
      MatchBehind(line, rest, MARKER, i - |line| - 1);
      if i <= |line| + 1 + |rest| {
        LineFeedsBehind(line, rest, i - |line| - 1);
      }
    }
  }

  lemma {:induction false} MarkedIff(b: Bytes, most: nat)
    ensures MarkedLines(Lines(b), most) <==> MarkSomewhere(b, most)
    decreases |b|
  {
    if b == [] || most == 0 {
      NothingMarked(b, most);
    } else {
      match IndexOf(b, LF)
      case None => MarkedIffOneLine(b, most);
      case Some(nl) =>
        MarkedIff(b[nl + 1..], most - 1);
        MarkedIffCons(b, b[..nl], b[nl + 1..], most, most - 1);
    }
  }

  lemma MarkedIffCons(b: Bytes, line: Bytes, rest: Bytes, most: nat, fewer: nat)
    requires LF !in line && most == fewer + 1 && b == line + [LF] + rest
    requires MarkedLines(Lines(rest), fewer) <==> MarkSomewhere(rest, fewer)
    ensures MarkedLines(Lines(b), most) <==> MarkSomewhere(b, most)
  {
    MarkedLinesCons(b, line, rest, most, fewer);
    MarkSomewhereCons(b, line, rest, most, fewer);
  }

  predicate MarkSomewhere(b: Bytes, most: nat) {
    exists i: nat | i <= |b| :: MarkAt(b, i, most)
  }

  lemma NothingMarked(b: Bytes, most: nat)
    requires b == [] || most == 0
    ensures !MarkedLines(Lines(b), most) && !MarkSomewhere(b, most)
  {
    MarkerFacts();
  }

  lemma MarkedIffOneLine(line: Bytes, most: nat)
    requires LF !in line && line != [] && most > 0
    ensures MarkedLines(Lines(line), most) <==> MarkSomewhere(line, most)
  {
    LinesOne(line);
    if MarkedLines([line], most) {
      assert Contains([line][0], MARKER);
      var i: nat :| i <= |line| && MatchesAt(line, MARKER, i);
      NoLineFeeds(line, [], i);
      assert line + [] == line;
      assert MarkAt(line, i, most);
    }
    if i: nat :| i <= |line| && MarkAt(line, i, most) {
      assert Contains([line][0], MARKER);
    }
  }

  lemma MarkedLinesCons(b: Bytes, line: Bytes, rest: Bytes, most: nat, fewer: nat)
    requires LF !in line && most == fewer + 1 && b == line + [LF] + rest
    ensures MarkedLines(Lines(b), most) <==> Contains(line, MARKER) || MarkedLines(Lines(rest), fewer)
  {
    MarkerFacts();
    LinesCons(line, rest);
    MarkedCons(StripCr(line), Lines(rest), most);
    StripCrKeeps(line, MARKER);
  }

  lemma MarkSomewhereCons(b: Bytes, line: Bytes, rest: Bytes, most: nat, fewer: nat)
    requires LF !in line && most == fewer + 1 && b == line + [LF] + rest
    ensures MarkSomewhere(b, most) <==> Contains(line, MARKER) || MarkSomewhere(rest, fewer)
  {
    if i: nat :| i <= |b| && MarkAt(b, i, most) {
      MarkAtCons(line, rest, most, i);
      assert i > |line| ==> MarkAt(rest, i - |line| - 1, fewer);
    }
    MarkSomewhereBack(b, line, rest, most, fewer);
  }

  lemma MarkSomewhereBack(b: Bytes, line: Bytes, rest: Bytes, most: nat, fewer: nat)
    requires LF !in line && most == fewer + 1 && b == line + [LF] + rest
    ensures Contains(line, MARKER) || MarkSomewhere(rest, fewer) ==> MarkSomewhere(b, most)
  {
    if Contains(line, MARKER) {
      var i: nat :| i <= |line| && MatchesAt(line, MARKER, i);
      MarkAtCons(line, rest, most, i);
      assert MarkAt(b, i, most);
    }
    if i: nat :| i <= |rest| && MarkAt(rest, i, fewer) {
      MarkAtCons(line, rest, most, |line| + 1 + i);
      assert MarkAt(b, |line| + 1 + i, most);
    }
  }

  /** Said without lines: a file counts as softfig's own exactly when its first 512 bytes
      are valid UTF-8 and hold the marker with at most two line feeds before it. */
  lemma ManagedIff(b: Bytes)
    ensures var head := if |b| <= 512 then b else b[..512];
            HasManagedStamp(b) <==>
              ValidUtf8(head) && exists i: nat :: i <= |head| && MatchesAt(head, MARKER, i) && LineFeeds(head, i) <= 2
  {
    var head := if |b| <= 512 then b else b[..512];
    MarkedIff(head, 3);
    if i: nat :| i <= |head| && MarkAt(head, i, 3) {
      assert LineFeeds(head, i) <= 2;
    }
    if i: nat :| i <= |head| && MatchesAt(head, MARKER, i) && LineFeeds(head, i) <= 2 {
      assert MarkAt(head, i, 3);
    }
  }

  // ---- text sources ------------------------------------------------------------

  lemma MarkerValid()
    ensures ValidUtf8(MARKER)
  {
    var front, dash, back := Ascii("managed by softfig "), [0xE2, 0x80, 0x94], Ascii(" edits will be overwritten");
    AsciiTextValid("managed by softfig ");
    AsciiTextValid(" edits will be overwritten");
    DashValid(dash);
    ThreeValid(front, dash, back);
  }

  lemma DashValid(dash: Bytes)
    requires dash == [0xE2, 0x80, 0x94]
    ensures ValidUtf8(dash)
  {
    assert CharLength(dash) == 3 && dash[3..] == [];
  }

  lemma ThreeValid(a: Bytes, b: Bytes, c: Bytes)
    requires ValidUtf8(a) && ValidUtf8(b) && ValidUtf8(c)
    ensures ValidUtf8(a + b + c)
  {
    ConcatValid(a, b);
    ConcatValid(a + b, c);
  }

  lemma StampLineValid(leader: Bytes, rel: Bytes)
    requires IsLeader(leader) && ValidUtf8(rel)
    ensures ValidUtf8(StampLine(leader, rel))
  {
    var space, opening, closing := Ascii(" "), Ascii(" (source: config/source/"), Ascii(")\n");
    assert forall i | 0 <= i < |leader| :: leader[i] in leader;
    AsciiValid(leader);
    AsciiTextValid(" ");
    AsciiTextValid(" (source: config/source/");
    AsciiTextValid(")\n");
    MarkerValid();
    ThreeValid(leader, space, MARKER);
    ThreeValid(StampLead(leader), opening, rel);
    ConcatValid(StampLead(leader) + opening + rel, closing);
  }

  lemma InsertedValid(source: Bytes, stamp: Bytes)
    requires ValidUtf8(source) && ValidUtf8(stamp)
    ensures ValidUtf8(Inserted(source, stamp))
  {
    var at := InsertAt(source);
    if at == 0 {
      assert Inserted(source, stamp) == stamp + source;
      ConcatValid(stamp, source);
    } else {
      SplitAfterAscii(source, at - 1);
      ThreeValid(source[..at], stamp, source[at..]);
    }
  }

  /** For a text source: the stamp is recognised exactly when byte 512 of the output
      does not fall inside a character, and the shebang line leaves room. */
  lemma TextRecognisedIff(name: string, source: Bytes, rel: Bytes, leader: Bytes)
    requires CommentLeader(name) == Some(leader) && ValidUtf8(source) && ValidUtf8(rel)
    ensures HasManagedStamp(Composed(name, source, rel)) <==>
              && IsBoundary(Composed(name, source, rel), HEAD_LENGTH)
              && (HasRoom(source, leader) || ShebangCarriesMarker(source))
  {
    var out := Composed(name, source, rel);
    RecognisedIff(name, source, rel, leader);
    StampLineValid(leader, rel);
    InsertedValid(source, StampLine(leader, rel));
    if |out| > HEAD_LENGTH {
      PrefixValidIff(out, HEAD_LENGTH);
    }
  }

  /** For every stampable name some text source yields a stamp that is not recognised:
      a two-byte character across byte 512. */
  lemma StampCanBeMissed(name: string, leader: Bytes) returns (source: Bytes)
    requires CommentLeader(name) == Some(leader)
    ensures ValidUtf8(source) && !HasManagedStamp(Composed(name, source, []))
  {
    var stamp := StampLine(leader, []);
    LeadFacts(leader);
    assert |stamp| <= 77;
    var fill: Bytes := seq(HEAD_LENGTH - 1 - |stamp|, i => 'a' as byte);
    var accented: Bytes := [0xC3, 0xA9];
    source := fill + accented;
    AsciiValid(fill);
    assert CharLength(accented) == 2 && accented[2..] == [];
    ConcatValid(fill, accented);
    assert source[0] == 'a' as byte;
    assert InsertAt(source) == 0;
    assert Composed(name, source, [])[HEAD_LENGTH] == accented[1];
    TextRecognisedIff(name, source, [], leader);
  }
}
