/** config.ini editing: whole sections are appended for a node and deleted by its host name.

    A regular expression match is a predicate on lines.  For headers it is written out; for host
    names it is a parameter, of which a literal host name is one instance.
 */
module ConfigIni {

  // ---------------------------------------------------------------- lines and headers

  /** re.match("\[.*\]", line): a bracket at the start and a closing one before any newline. */
  predicate IsHeader(line: string) {
    |line| > 0 && line[0] == '[' && exists k :: 0 < k < |line| && line[k] == ']' && '\n' !in line[..k]
  }

  /** re.match(".*" + hostname, line) for a host name without special characters. */
  predicate HasHost(hostname: string, line: string) {
    exists k :: 0 <= k <= |line| && hostname <= line[k..] && '\n' !in line[..k]
  }

  /** Length of the first block: the first line and the lines up to the next header. */
  function BlockEnd(lines: seq<string>): (b: nat)
    requires lines != []
    ensures 0 < b <= |lines|
    ensures forall k :: 0 < k < b ==> !IsHeader(lines[k])
    ensures b < |lines| ==> IsHeader(lines[b])
  {
    if |lines| == 1 || IsHeader(lines[1]) then 1
    else
      var b := BlockEnd(lines[1..]);
      assert forall k :: 1 < k < 1 + b ==> lines[k] == lines[1..][k - 1];
      1 + b
  }

  /** A block goes when one of its lines that is not a header matches the host. */
  ghost predicate Doomed(host: string -> bool, block: seq<string>) {
    exists k :: 0 <= k < |block| && !IsHeader(block[k]) && host(block[k])
  }

  /** The reference: blocks one after the other, each kept or dropped as a whole. */
  ghost function Keep(host: string -> bool, lines: seq<string>): seq<string>
    decreases |lines|
  {
    if lines == [] then []
    else
      var b := BlockEnd(lines);
      (if Doomed(host, lines[..b]) then [] else lines[..b]) + Keep(host, lines[b..])
  }

  // ---------------------------------------------------------------- laws of the reference

  /** Where a block may end: at the end, or before a header. */
  predicate StartsBlock(rest: seq<string>) {
    rest == [] || IsHeader(rest[0])
  }

  lemma BlockEndUnique(lines: seq<string>, b: nat)
    requires 0 < b <= |lines| && (forall k :: 0 < k < b ==> !IsHeader(lines[k])) && StartsBlock(lines[b..])
    ensures BlockEnd(lines) == b
  {
    hide IsHeader;
    var c := BlockEnd(lines);
    assert b < |lines| ==> lines[b..][0] == lines[b];
    assert c < |lines| ==> IsHeader(lines[c]);
  }

  lemma KeepFirst(host: string -> bool, lines: seq<string>, b: nat)
    requires 0 < b <= |lines| && (forall k :: 0 < k < b ==> !IsHeader(lines[k])) && StartsBlock(lines[b..])
    ensures Keep(host, lines) == (if Doomed(host, lines[..b]) then [] else lines[..b]) + Keep(host, lines[b..])
  {
    hide IsHeader, Doomed, StartsBlock;
    BlockEndUnique(lines, b);
  }

  lemma BlockEndStarts(lines: seq<string>)
    requires lines != []
    ensures StartsBlock(lines[BlockEnd(lines)..])
  {
    hide IsHeader;
  }

  lemma KeepNothing(host: string -> bool)
    ensures Keep(host, []) == []
  {
  }

  lemma Assoc<T>(a: seq<T>, b: seq<T>, c: seq<T>)
    ensures (a + b) + c == a + (b + c)
  {
  }

  lemma {:induction false} KeepConcat(host: string -> bool, pre: seq<string>, rest: seq<string>)
    requires StartsBlock(rest)
    ensures Keep(host, pre + rest) == Keep(host, pre) + Keep(host, rest)
    decreases |pre|
  {
    hide IsHeader, Doomed, Keep;
    if pre == [] {
      KeepNothing(host);
      assert pre + rest == rest && [] + Keep(host, rest) == Keep(host, rest);
    } else {
      var b, both := BlockEnd(pre), pre + rest;
      BlockEndStarts(pre);
      assert both[b..] == pre[b..] + rest && both[..b] == pre[..b];
      assert StartsBlock(pre[b..] + rest);
      KeepFirst(host, both, b);
      KeepFirst(host, pre, b);
      KeepConcat(host, pre[b..], rest);
      Assoc(if Doomed(host, pre[..b]) then [] else pre[..b], Keep(host, pre[b..]), Keep(host, rest));
    }
  }

  /** No line outside the headers matches. */
  ghost predicate Clean(host: string -> bool, lines: seq<string>) {
    forall k :: 0 <= k < |lines| && !IsHeader(lines[k]) ==> !host(lines[k])
  }

  lemma CleanParts(host: string -> bool, lines: seq<string>, b: nat)
    requires Clean(host, lines) && b <= |lines|
    ensures !Doomed(host, lines[..b]) && Clean(host, lines[b..])
  {
    hide IsHeader;
    assert forall k :: 0 <= k < |lines| - b ==> lines[b..][k] == lines[k + b];
  }

  lemma {:induction false} KeepClean(host: string -> bool, lines: seq<string>)
    requires Clean(host, lines)
    ensures Keep(host, lines) == lines
    decreases |lines|
  {
    hide IsHeader, Doomed, Keep, Clean, StartsBlock;
    if lines == [] {
      KeepNothing(host);
    } else {
      var b := BlockEnd(lines);
      BlockEndStarts(lines);
      KeepFirst(host, lines, b);
      CleanParts(host, lines, b);
      KeepClean(host, lines[b..]);
      assert lines == lines[..b] + lines[b..];
    }
  }

  lemma {:induction false} KeepIsClean(host: string -> bool, lines: seq<string>)
    ensures Clean(host, Keep(host, lines))
    decreases |lines|
  {
    if lines != [] {
      KeepIsClean(host, lines[BlockEnd(lines)..]);
    }
  }

  /** Deleting again deletes nothing more. */
  lemma KeepIdempotent(host: string -> bool, lines: seq<string>)
    ensures Keep(host, Keep(host, lines)) == Keep(host, lines)
  {
    KeepIsClean(host, lines);
    KeepClean(host, Keep(host, lines));
  }

  /** One block with a matching line can be cut out. */
  lemma CutBlock(host: string -> bool, lines: seq<string>, i: nat, j: nat)
    requires i < j <= |lines| && (i == 0 || IsHeader(lines[i])) && StartsBlock(lines[j..])
    requires forall k :: i < k < j ==> !IsHeader(lines[k])
    requires Doomed(host, lines[i..j])
    ensures Keep(host, lines[..i] + lines[j..]) == Keep(host, lines)
  {
    hide IsHeader, Doomed, Keep, StartsBlock;
    var pre, tail, rest := lines[..i], lines[i..], lines[j..];
    TailParts(lines, i, j);
    KeepFirst(host, tail, j - i);
    assert [] + Keep(host, rest) == Keep(host, rest);
    KeepConcat(host, pre, rest);
    if i == 0 {
      KeepNothing(host);
      assert pre == [] && lines == tail;
    } else {
      assert StartsBlock(tail) by { HeadStarts(lines, i); }
      KeepConcat(host, pre, tail);
    }
  }

  lemma TailParts(lines: seq<string>, i: nat, j: nat)
    requires i < j <= |lines| && forall k :: i < k < j ==> !IsHeader(lines[k])
    ensures lines == lines[..i] + lines[i..]
    ensures lines[i..][..j - i] == lines[i..j] && lines[i..][j - i..] == lines[j..]
    ensures forall k :: 0 < k < j - i ==> !IsHeader(lines[i..][k])
  {
    hide IsHeader;
    assert forall k :: 0 < k < j - i ==> lines[i..][k] == lines[i + k];
  }

  lemma HeadStarts(lines: seq<string>, i: nat)
    requires i < |lines| && IsHeader(lines[i])
    ensures StartsBlock(lines[i..])
  {
    hide IsHeader;
  }

  // ---------------------------------------------------------------- each line on its own

  /** First and one-past-last line of the section that line k is in. */
  function SectionStart(lines: seq<string>, k: nat): nat
    requires k < |lines|
  {
    if k == 0 || IsHeader(lines[k]) then k else SectionStart(lines, k - 1)
  }

  function SectionEnd(lines: seq<string>, k: nat): nat
    requires k < |lines|
    decreases |lines| - k
  {
    if k + 1 == |lines| || IsHeader(lines[k + 1]) then k + 1 else SectionEnd(lines, k + 1)
  }

  ghost predicate LineStays(host: string -> bool, lines: seq<string>, k: nat)
    requires k < |lines|
  {
    forall m :: SectionStart(lines, k) <= m < SectionEnd(lines, k) && m < |lines| && !IsHeader(lines[m])
                ==> !host(lines[m])
  }

  ghost function Survivors(host: string -> bool, lines: seq<string>, k: nat): seq<string>
    requires k <= |lines|
    decreases |lines| - k
  {
    if k == |lines| then []
    else (if LineStays(host, lines, k) then [lines[k]] else []) + Survivors(host, lines, k + 1)
  }

  lemma {:induction false} SectionOf(lines: seq<string>, a: nat, b: nat, k: nat)
    requires a <= k < b <= |lines| && (a == 0 || IsHeader(lines[a]))
    requires (forall m :: a < m < b ==> !IsHeader(lines[m])) && (b == |lines| || IsHeader(lines[b]))
    ensures SectionStart(lines, k) == a && SectionEnd(lines, k) == b
  {
    StartOf(lines, a, k);
    EndOf(lines, b, k);
  }

  lemma {:induction false} StartOf(lines: seq<string>, a: nat, k: nat)
    requires a <= k < |lines| && (a == 0 || IsHeader(lines[a])) && forall m :: a < m <= k ==> !IsHeader(lines[m])
    ensures SectionStart(lines, k) == a
    decreases k
  {
    if k > a {
      StartOf(lines, a, k - 1);
    }
  }

  lemma {:induction false} EndOf(lines: seq<string>, b: nat, k: nat)
    requires k < b <= |lines| && (b == |lines| || IsHeader(lines[b])) && forall m :: k < m < b ==> !IsHeader(lines[m])
    ensures SectionEnd(lines, k) == b
    decreases b - k
  {
    if k + 1 < b {
      EndOf(lines, b, k + 1);
    }
  }

  /** Survivors inside one block: all of it or none. */
  lemma {:induction false} BlockSurvivors(host: string -> bool, lines: seq<string>, a: nat, b: nat, k: nat)
    requires a <= k <= b <= |lines| && a < b && (a == 0 || IsHeader(lines[a]))
    requires (forall m :: a < m < b ==> !IsHeader(lines[m])) && (b == |lines| || IsHeader(lines[b]))
    ensures Survivors(host, lines, k)
         == (if Doomed(host, lines[a..b]) then [] else lines[k..b]) + Survivors(host, lines, b)
    decreases b - k
  {
    hide IsHeader, Doomed, LineStays, Survivors;
    ghost var rest := Survivors(host, lines, b);
    if k == b {
      var none: seq<string> := [];
      assert lines[k..b] == none;
      NothingBefore(none, rest);
    } else {
      SectionOf(lines, a, b, k);
      DoomedBlock(host, lines, a, b, k);
      BlockSurvivors(host, lines, a, b, k + 1);
      SurvivorsStep(host, lines, k);
      assert lines[k..b] == [lines[k]] + lines[k + 1..b];
      Assoc([lines[k]], lines[k + 1..b], rest);
    }
  }

  lemma NothingBefore(none: seq<string>, rest: seq<string>)
    requires none == []
    ensures none + rest == rest
  {
  }

  lemma SurvivorsNone(host: string -> bool, lines: seq<string>)
    ensures Survivors(host, lines, |lines|) == []
  {
  }

  lemma SurvivorsStep(host: string -> bool, lines: seq<string>, k: nat)
    requires k < |lines|
    ensures LineStays(host, lines, k) ==> Survivors(host, lines, k) == [lines[k]] + Survivors(host, lines, k + 1)
    ensures !LineStays(host, lines, k) ==> Survivors(host, lines, k) == Survivors(host, lines, k + 1)
  {
  }

  lemma DoomedBlock(host: string -> bool, lines: seq<string>, a: nat, b: nat, k: nat)
    requires a <= k < b <= |lines| && SectionStart(lines, k) == a && SectionEnd(lines, k) == b
    ensures Doomed(host, lines[a..b]) <==> !LineStays(host, lines, k)
  {
    var block := lines[a..b];
    if Doomed(host, block) {
      var m :| 0 <= m < |block| && !IsHeader(block[m]) && host(block[m]);
      assert lines[a + m] == block[m];
    }
    if !LineStays(host, lines, k) {
      var m :| a <= m < b && !IsHeader(lines[m]) && host(lines[m]);
      assert block[m - a] == lines[m];
    }
  }

  /** A line survives exactly when no line of its own section, headers aside, matches. */
  lemma {:induction false} KeepIsSurvivors(host: string -> bool, lines: seq<string>, a: nat)
    requires a <= |lines| && (a == 0 || StartsBlock(lines[a..]))
    ensures Keep(host, lines[a..]) == Survivors(host, lines, a)
    decreases |lines| - a
  {
    hide IsHeader, Doomed, LineStays, Survivors;
    if a == |lines| {
      KeepNothing(host);
      SurvivorsNone(host, lines);
    } else {
      var tail := lines[a..];
      var b := a + BlockEnd(tail);
      assert forall m :: a < m < b ==> lines[m] == tail[m - a];
      assert tail[..b - a] == lines[a..b] && tail[b - a..] == lines[b..];
      assert b < |lines| ==> lines[b..][0] == tail[b - a];
      BlockSurvivors(host, lines, a, b, a);
      KeepIsSurvivors(host, lines, b);
    }
  }

  // ---------------------------------------------------------------- deleteNodeFromFile

  /** The two inner loops: down to the start of the section and up to its end. */
  method FindSection(lines: seq<string>, hit: nat) returns (i: nat, j: nat)
    requires hit < |lines|
    ensures i <= hit <= j <= |lines| && (i == 0 || IsHeader(lines[i])) && StartsBlock(lines[j..])
    ensures IsHeader(lines[hit]) ==> i == j == hit
    ensures !IsHeader(lines[hit]) ==> hit < j && forall k :: i < k < j ==> !IsHeader(lines[k])
  {
    hide IsHeader;
    i, j := hit, hit;
    while i > 0 && !IsHeader(lines[i])
      invariant i <= hit
      invariant forall k :: i < k <= hit ==> !IsHeader(lines[k])
    {
      i := i - 1;
    }
    while j < |lines| && !IsHeader(lines[j])
      invariant hit <= j <= |lines|
      invariant forall k :: hit <= k < j ==> !IsHeader(lines[k])
    {
      j := j + 1;
    }
    assert j < |lines| ==> lines[j..][0] == lines[j];
  }

  /** No line before n matches, headers aside. */
  ghost predicate CleanTo(host: string -> bool, lines: seq<string>, n: nat) {
    forall k :: 0 <= k < n && k < |lines| && !IsHeader(lines[k]) ==> !host(lines[k])
  }

  lemma CleanOver(host: string -> bool, lines: seq<string>, n: nat)
    requires CleanTo(host, lines, n) && n < |lines| && !host(lines[n])
    ensures CleanTo(host, lines, n + 1)
  {
    hide IsHeader;
  }

  lemma CleanAfterCut(host: string -> bool, lines: seq<string>, n: nat, i: nat, j: nat)
    requires CleanTo(host, lines, n) && i <= n && i <= j <= |lines| && StartsBlock((lines[..i] + lines[j..])[i..])
    ensures CleanTo(host, lines[..i] + lines[j..], i + 1)
  {
    hide IsHeader;
    var less := lines[..i] + lines[j..];
    assert i < |less| ==> less[i..][0] == less[i];
  }

  /** The whole file: i goes back to the start of a deleted section, yet the distance to the end shrinks. */
  method DeleteSections(host: string -> bool, file: seq<string>) returns (lines: seq<string>)
    ensures lines == Keep(host, file)
  {
    hide IsHeader, Keep, CleanTo, StartsBlock;
    lines := file;
    var i := 0;
    CleanFromStart(host, lines);
    while i < |lines|
      invariant 0 <= i && Keep(host, lines) == Keep(host, file) && CleanTo(host, lines, i)
      decreases |lines| - i
    {
      if host(lines[i]) {
        ghost var hit := i;
        var j;
        i, j := FindSection(lines, i);
        CutSection(host, lines, i, hit, j);
        CleanAfterCut(host, lines, hit, i, j);
        lines := lines[..i] + lines[j..];
      } else {
        CleanOver(host, lines, i);
      }
      i := i + 1;
    }
    AllClean(host, lines, i);
    KeepClean(host, lines);
  }

  lemma CleanFromStart(host: string -> bool, lines: seq<string>)
    ensures CleanTo(host, lines, 0)
  {
  }

  lemma AllClean(host: string -> bool, lines: seq<string>, n: nat)
    requires CleanTo(host, lines, n) && n >= |lines|
    ensures Clean(host, lines)
  {
    hide IsHeader;
  }

  lemma HitDooms(host: string -> bool, lines: seq<string>, i: nat, hit: nat, j: nat)
    requires i <= hit < j <= |lines| && host(lines[hit]) && !IsHeader(lines[hit])
    ensures Doomed(host, lines[i..j])
  {
    hide IsHeader;
    assert lines[i..j][hit - i] == lines[hit];
  }

  /** Removing what FindSection found changes nothing in the reference, and a header comes next. */
  lemma CutSection(host: string -> bool, lines: seq<string>, i: nat, hit: nat, j: nat)
    requires hit < |lines| && host(lines[hit])
    requires i <= hit <= j <= |lines| && (i == 0 || IsHeader(lines[i])) && StartsBlock(lines[j..])
    requires IsHeader(lines[hit]) ==> i == j == hit
    requires !IsHeader(lines[hit]) ==> hit < j && forall k :: i < k < j ==> !IsHeader(lines[k])
    ensures Keep(host, lines[..i] + lines[j..]) == Keep(host, lines)
    ensures StartsBlock((lines[..i] + lines[j..])[i..])
  {
    hide IsHeader, Keep, Doomed, StartsBlock;
    assert (lines[..i] + lines[j..])[i..] == lines[j..];
    if IsHeader(lines[hit]) {
      assert lines[..i] + lines[j..] == lines;
    } else {
      HitDooms(host, lines, i, hit, j);
      CutBlock(host, lines, i, j);
    }
  }

  // ---------------------------------------------------------------- the file as text

  /** readlines: every line keeps its newline; the last one may lack it. */
  function Lines(text: string): seq<string> {
    if text == "" then [] else Prefixed(text[0], Lines(text[1..]))
  }

  function Prefixed(c: char, lines: seq<string>): seq<string> {
    if c == '\n' || lines == [] then [[c]] + lines else [[c] + lines[0]] + lines[1..]
  }

  function Concat(lines: seq<string>): string {
    if lines == [] then "" else lines[0] + Concat(lines[1..])
  }

  predicate Terminated(text: string) {
    text == "" || text[|text| - 1] == '\n'
  }

  predicate IsLine(line: string) {
    line != "" && line[|line| - 1] == '\n' && '\n' !in line[..|line| - 1]
  }

  predicate AllLines(lines: seq<string>) {
    forall k :: 0 <= k < |lines| ==> IsLine(lines[k])
  }

  lemma {:induction false} ConcatLines(text: string)
    ensures Concat(Lines(text)) == text
  {
    if text != "" {
      ConcatLines(text[1..]);
      assert text == [text[0]] + text[1..];
    }
  }

  lemma {:induction false} LinesTerminated(text: string)
    requires Terminated(text)
    ensures AllLines(Lines(text)) && (text != "" ==> Lines(text) != [])
  {
    if text != "" {
      var c, rest := text[0], Lines(text[1..]);
      LinesTerminated(text[1..]);
      assert Lines(text) == Prefixed(c, rest) && (c == '\n' || rest != []);
      hide Lines, IsLine;
      if c != '\n' {
        LongerLine(c, rest[0]);
      } else {
        EmptyLine();
      }
    }
  }

  lemma LongerLine(c: char, line: string)
    requires c != '\n' && IsLine(line)
    ensures IsLine([c] + line)
  {
    assert ([c] + line)[..|[c] + line| - 1] == [c] + line[..|line| - 1];
  }

  lemma EmptyLine()
    ensures IsLine(['\n'])
  {
  }

  lemma PrefixedConcat(c: char, a: seq<string>, b: seq<string>)
    requires c == '\n' || a != []
    ensures Prefixed(c, a + b) == Prefixed(c, a) + b
  {
    assert a != [] ==> (a + b)[1..] == a[1..] + b;
    assert [[c]] + (a + b) == ([[c]] + a) + b;
  }

  lemma {:induction false} LinesConcat(a: string, b: string)
    requires Terminated(a)
    ensures Lines(a + b) == Lines(a) + Lines(b)
  {
    if a == "" {
      assert a + b == b && [] + Lines(b) == Lines(b);
    } else {
      assert (a + b)[1..] == a[1..] + b;
      LinesConcat(a[1..], b);
      LinesTerminated(a[1..]);
      PrefixedConcat(a[0], Lines(a[1..]), Lines(b));
    }
  }

  lemma {:induction false} LinesOfLine(line: string)
    requires IsLine(line)
    ensures Lines(line) == [line]
  {
    if |line| > 1 {
      assert line[1..][..|line| - 2] == line[..|line| - 1][1..];
      assert line[0] == line[..|line| - 1][0];
      LinesOfLine(line[1..]);
      assert line == [line[0]] + line[1..];
    } else {
      assert line[1..] == "" && line == [line[0]];
    }
  }

  lemma {:induction false} LinesOfLines(lines: seq<string>)
    requires AllLines(lines)
    ensures Lines(Concat(lines)) == lines && Terminated(Concat(lines))
  {
    if lines != [] {
      hide IsLine;
      LinesOfLines(lines[1..]);
      assert IsLine(lines[0]);
      LinesOfLine(lines[0]);
      assert Terminated(lines[0]) by { LineEnds(lines[0]); }
      LinesConcat(lines[0], Concat(lines[1..]));
    }
  }

  lemma LineEnds(line: string)
    requires IsLine(line)
    ensures Terminated(line)
  {
  }

  lemma {:induction false} ConcatConcat(a: seq<string>, b: seq<string>)
    ensures Concat(a + b) == Concat(a) + Concat(b)
  {
    if a == [] {
      assert a + b == b;
    } else {
      assert (a + b)[1..] == a[1..] + b;
      ConcatConcat(a[1..], b);
    }
  }

  /** What is kept are lines of the file. */
  lemma {:induction false} KeepLines(host: string -> bool, lines: seq<string>)
    requires AllLines(lines)
    ensures AllLines(Keep(host, lines))
    decreases |lines|
  {
    hide IsLine, Doomed, IsHeader;
    if lines != [] {
      KeepLines(host, lines[BlockEnd(lines)..]);
    }
  }

  // ---------------------------------------------------------------- what is appended

  function Decimal(n: nat): (s: string)
    ensures '\n' !in s
  {
    (if n < 10 then "" else Decimal(n / 10)) + ["0123456789"[n % 10]]
  }

  /** The number that decimal digits stand for. */
  function Valued(s: string): int {
    if s == "" then 0 else 10 * Valued(s[..|s| - 1]) + (s[|s| - 1] as int - '0' as int)
  }

  /** Digits only, with no leading zero but the one that stands for zero. */
  predicate IsNumeral(s: string) {
    s != "" && (|s| > 1 ==> s[0] != '0') && forall i :: 0 <= i < |s| ==> '0' <= s[i] <= '9'
  }

  /** The digits stand for the number. */
  lemma {:induction false} DecimalMeans(n: nat)
    ensures Valued(Decimal(n)) == n && IsNumeral(Decimal(n))
    ensures n > 0 ==> Decimal(n)[0] != '0'
  {
    var last := "0123456789"[n % 10];
    DigitIs(n % 10);
    hide IsNumeral, Valued;
    if n < 10 {
      assert Decimal(n) == "" + [last];
      OneDigit(last);
    } else {
      assert Decimal(n) == Decimal(n / 10) + [last];
      DecimalMeans(n / 10);
      MoreDigits(Decimal(n / 10), last);
    }
  }

  lemma OneDigit(last: char)
    requires '0' <= last <= '9'
    ensures IsNumeral("" + [last]) && Valued("" + [last]) == last as int - '0' as int
  {
    assert Valued("") == 0 && ("" + [last])[..0] == "";
  }

  lemma MoreDigits(front: string, last: char)
    requires IsNumeral(front) && front[0] != '0' && '0' <= last <= '9'
    ensures IsNumeral(front + [last]) && (front + [last])[0] != '0'
    ensures Valued(front + [last]) == 10 * Valued(front) + last as int - '0' as int
  {
    assert (front + [last])[..|front|] == front;
  }

  lemma DigitIs(d: nat)
    requires d < 10
    ensures "0123456789"[d] as int == '0' as int + d
  {
  }

  function IdText(id: int): string {
    if id > 0 then "NodeId=" + Decimal(id) + "\n" else ""
  }

  /** One mysqld section; SQLToString writes four, the id in the first only. */
  function MysqldText(hostname: string, id: int): string {
    "[mysqld]\n" + IdText(id) + ("hostname=" + hostname + "\n") + "\n"
  }

  function SqlToString(hostname: string, id: int): string {
    MysqldText(hostname, id) + MysqldText(hostname, 0) + MysqldText(hostname, 0) + MysqldText(hostname, 0)
  }

  function DataToString(hostname: string, id: int): string {
    "[ndbd]\n" + IdText(id) + ("hostname=" + hostname + "\n") + "ServerPort=40000\n" + "\n"
  }

  function MgmToString(hostname: string, id: int): string {
    "[ndb_mgmd]\n" + IdText(id) + "DataDir = /var/lib/mysql-mgmd-data\n" + "PortNumber = 1186\n"
    + ("HostName = " + hostname + "\n") + "\n"
  }

  /** An unknown node type appends nothing. */
  function NodeText(nodetype: string, hostname: string, id: int): string {
    if nodetype == "sql" then SqlToString(hostname, id)
    else if nodetype == "data" then DataToString(hostname, id)
    else if nodetype == "management" then MgmToString(hostname, id)
    else ""
  }

  function HostLine(nodetype: string, hostname: string): string {
    (if nodetype == "management" then "HostName = " else "hostname=") + hostname + "\n"
  }

  /** The same text as sections of lines. */
  function IdLine(id: int): seq<string> {
    if id > 0 then [IdText(id)] else []
  }

  function SqlSection(hostname: string, id: int): seq<string> {
    ["[mysqld]\n"] + IdLine(id) + ["hostname=" + hostname + "\n"] + ["\n"]
  }

  function DataSection(hostname: string, id: int): seq<string> {
    ["[ndbd]\n"] + IdLine(id) + ["hostname=" + hostname + "\n"] + ["ServerPort=40000\n"] + ["\n"]
  }

  function MgmSection(hostname: string, id: int): seq<string> {
    ["[ndb_mgmd]\n"] + IdLine(id)
    + ["DataDir = /var/lib/mysql-mgmd-data\n"] + ["PortNumber = 1186\n"] + ["HostName = " + hostname + "\n"] + ["\n"]
  }

  function Sections(nodetype: string, hostname: string, id: int): seq<seq<string>>
    requires nodetype in {"sql", "data", "management"}
  {
    if nodetype == "sql" then
      [SqlSection(hostname, id), SqlSection(hostname, 0), SqlSection(hostname, 0), SqlSection(hostname, 0)]
    else if nodetype == "data" then [DataSection(hostname, id)]
    else [MgmSection(hostname, id)]
  }

  function Flatten(sections: seq<seq<string>>): seq<string> {
    if sections == [] then [] else sections[0] + Flatten(sections[1..])
  }

  /** One section that mentions the host. */
  ghost predicate HostSection(host: string -> bool, block: seq<string>) {
    && block != [] && IsHeader(block[0]) && AllLines(block)
    && (forall k :: 0 < k < |block| ==> !IsHeader(block[k]))
    && exists k :: 0 < k < |block| && host(block[k])
  }

  lemma {:induction false} KeepSections(host: string -> bool, lines: seq<string>, sections: seq<seq<string>>)
    requires forall k :: 0 <= k < |sections| ==> HostSection(host, sections[k])
    ensures Keep(host, lines + Flatten(sections)) == Keep(host, lines)
    decreases |sections|
  {
    hide Keep, HostSection;
    if sections == [] {
      assert lines + [] == lines;
    } else {
      var first, others := sections[0], Flatten(sections[1..]);
      FlattenStarts(host, sections);
      FlattenStarts(host, sections[1..]);
      KeepConcat(host, lines, first + others);
      KeepHostSection(host, first);
      KeepConcat(host, first, others);
      KeepSections(host, [], sections[1..]);
      assert [] + others == others && [] + Keep(host, others) == Keep(host, others);
      KeepNothing(host);
      assert Keep(host, lines) + [] == Keep(host, lines);
    }
  }

  lemma FlattenStarts(host: string -> bool, sections: seq<seq<string>>)
    requires forall k :: 0 <= k < |sections| ==> HostSection(host, sections[k])
    ensures StartsBlock(Flatten(sections))
  {
    hide IsHeader, IsLine;
  }

  lemma KeepHostSection(host: string -> bool, block: seq<string>)
    requires HostSection(host, block)
    ensures Keep(host, block) == []
  {
    hide IsHeader, IsLine, Keep;
    assert block[..|block|] == block && block[|block|..] == [];
    KeepFirst(host, block, |block|);
    KeepNothing(host);
  }

  lemma {:induction false} FlattenLines(host: string -> bool, sections: seq<seq<string>>)
    requires forall k :: 0 <= k < |sections| ==> HostSection(host, sections[k])
    ensures AllLines(Flatten(sections))
  {
    hide IsHeader, IsLine;
    if sections != [] {
      FlattenLines(host, sections[1..]);
    }
  }

  lemma ConcatSnoc(lines: seq<string>, line: string)
    ensures Concat(lines + [line]) == Concat(lines) + line
  {
    ConcatConcat(lines, [line]);
    assert Concat([line]) == line + "";
    assert line + "" == line;
  }

  lemma ConcatHeader(header: string, id: int)
    ensures Concat([header] + IdLine(id)) == header + IdText(id)
  {
    hide IdText;
    assert ([header] + IdLine(id))[1..] == IdLine(id);
    if id > 0 {
      ConcatSnoc([], IdText(id));
      assert [] + [IdText(id)] == IdLine(id) && "" + IdText(id) == IdText(id);
    } else {
      assert IdText(id) == "" by { NoId(id); }
    }
  }

  lemma NoId(id: int)
    requires id <= 0
    ensures IdText(id) == ""
  {
  }

  lemma SqlSectionText(hostname: string, id: int)
    ensures Concat(SqlSection(hostname, id)) == MysqldText(hostname, id)
  {
    hide Concat, IdText, IdLine;
    ghost var start := ["[mysqld]\n"] + IdLine(id);
    ConcatHeader("[mysqld]\n", id);
    ConcatSnoc(start, "hostname=" + hostname + "\n");
    ConcatSnoc(start + ["hostname=" + hostname + "\n"], "\n");
  }

  lemma DataSectionText(hostname: string, id: int)
    ensures Concat(DataSection(hostname, id)) == DataToString(hostname, id)
  {
    hide Concat, IdText, IdLine;
    ghost var start := ["[ndbd]\n"] + IdLine(id);
    ghost var host := start + ["hostname=" + hostname + "\n"];
    ConcatHeader("[ndbd]\n", id);
    ConcatSnoc(start, "hostname=" + hostname + "\n");
    ConcatSnoc(host, "ServerPort=40000\n");
    ConcatSnoc(host + ["ServerPort=40000\n"], "\n");
  }

  lemma MgmSectionText(hostname: string, id: int)
    ensures Concat(MgmSection(hostname, id)) == MgmToString(hostname, id)
  {
    hide Concat, IdText, IdLine;
    ghost var start := ["[ndb_mgmd]\n"] + IdLine(id);
    ghost var dir := start + ["DataDir = /var/lib/mysql-mgmd-data\n"];
    ghost var port := dir + ["PortNumber = 1186\n"];
    ConcatHeader("[ndb_mgmd]\n", id);
    ConcatSnoc(start, "DataDir = /var/lib/mysql-mgmd-data\n");
    ConcatSnoc(dir, "PortNumber = 1186\n");
    ConcatSnoc(port, "HostName = " + hostname + "\n");
    ConcatSnoc(port + ["HostName = " + hostname + "\n"], "\n");
  }

  lemma FlattenSnoc(sections: seq<seq<string>>, section: seq<string>)
    ensures Flatten(sections + [section]) == Flatten(sections) + section
    decreases |sections|
  {
    if sections == [] {
      assert sections + [section] == [section];
    } else {
      assert (sections + [section])[1..] == sections[1..] + [section];
      FlattenSnoc(sections[1..], section);
    }
  }

  lemma NodeTextIsSections(nodetype: string, hostname: string, id: int)
    requires nodetype in {"sql", "data", "management"}
    ensures NodeText(nodetype, hostname, id) == Concat(Flatten(Sections(nodetype, hostname, id)))
  {
    hide MysqldText, SqlSection, DataToString, DataSection, MgmToString, MgmSection, Concat, Flatten;
    ghost var first, plain := SqlSection(hostname, id), SqlSection(hostname, 0);
    if nodetype == "sql" {
      SqlSectionText(hostname, id);
      SqlSectionText(hostname, 0);
      FlattenOne(first);
      FlattenSnoc([first], plain);
      FlattenSnoc([first] + [plain], plain);
      FlattenSnoc([first] + [plain] + [plain], plain);
      ConcatConcat(first, plain);
      ConcatConcat(first + plain, plain);
      ConcatConcat(first + plain + plain, plain);
      assert [first] + [plain] + [plain] + [plain] == [first, plain, plain, plain];
    } else if nodetype == "data" {
      DataSectionText(hostname, id);
      FlattenOne(DataSection(hostname, id));
    } else {
      MgmSectionText(hostname, id);
      FlattenOne(MgmSection(hostname, id));
    }
  }

  lemma FlattenOne(section: seq<string>)
    ensures Flatten([section]) == section
  {
    assert section + [] == section;
  }

  /** Every appended section is one that deletion drops, when the host matches its own line. */
  lemma SectionsMentionHost(host: string -> bool, nodetype: string, hostname: string, id: int)
    requires nodetype in {"sql", "data", "management"} && '\n' !in hostname && host(HostLine(nodetype, hostname))
    ensures forall k :: 0 <= k < |Sections(nodetype, hostname, id)|
                        ==> HostSection(host, Sections(nodetype, hostname, id)[k])
  {
    hide HostSection;
    if nodetype == "sql" {
      SqlMentionsHost(host, hostname, id);
      SqlMentionsHost(host, hostname, 0);
    } else if nodetype == "data" {
      DataMentionsHost(host, hostname, id);
    } else {
      MgmMentionsHost(host, hostname, id);
    }
  }

  /** A header made of one word, and a line that starts with a letter. */
  lemma HeaderLine(line: string)
    requires |line| > 2 && line[0] == '[' && line[|line| - 2] == ']' && line[|line| - 1] == '\n'
    requires '\n' !in line[..|line| - 1]
    ensures IsHeader(line) && IsLine(line)
  {
    assert line[..|line| - 2] == line[..|line| - 1][..|line| - 2];
  }

  lemma PlainLine(word: string)
    requires '\n' !in word && (word != "" ==> word[0] != '[')
    ensures !IsHeader(word + "\n") && IsLine(word + "\n")
  {
    assert (word + "\n")[..|word|] == word;
  }

  lemma IdLineIsPlain(id: int)
    ensures forall k :: 0 <= k < |IdLine(id)| ==> !IsHeader(IdLine(id)[k]) && IsLine(IdLine(id)[k])
  {
    hide IsHeader, IsLine;
    if id > 0 {
      PlainLine("NodeId=" + Decimal(id));
    }
  }

  lemma SqlMentionsHost(host: string -> bool, hostname: string, id: int)
    requires '\n' !in hostname && host("hostname=" + hostname + "\n")
    ensures HostSection(host, SqlSection(hostname, id))
  {
    hide IsHeader, IsLine, IdLine;
    HeaderLine("[mysqld]\n");
    IdLineIsPlain(id);
    PlainLine("hostname=" + hostname);
    PlainLine("");
    assert "" + "\n" == "\n";
    assert SqlSection(hostname, id)[1 + |IdLine(id)|] == "hostname=" + hostname + "\n";
  }

  lemma DataMentionsHost(host: string -> bool, hostname: string, id: int)
    requires '\n' !in hostname && host("hostname=" + hostname + "\n")
    ensures HostSection(host, DataSection(hostname, id))
  {
    hide IsHeader, IsLine, IdLine;
    HeaderLine("[ndbd]\n");
    IdLineIsPlain(id);
    PlainLine("hostname=" + hostname);
    PlainLine("ServerPort=40000");
    PlainLine("");
    assert "" + "\n" == "\n" && "ServerPort=40000" + "\n" == "ServerPort=40000\n";
    assert DataSection(hostname, id)[1 + |IdLine(id)|] == "hostname=" + hostname + "\n";
  }

  lemma MgmMentionsHost(host: string -> bool, hostname: string, id: int)
    requires '\n' !in hostname && host("HostName = " + hostname + "\n")
    ensures HostSection(host, MgmSection(hostname, id))
  {
    hide IsHeader, IsLine, IdLine;
    HeaderLine("[ndb_mgmd]\n");
    IdLineIsPlain(id);
    PlainLine("DataDir = /var/lib/mysql-mgmd-data");
    PlainLine("PortNumber = 1186");
    PlainLine("HostName = " + hostname);
    PlainLine("");
    assert "" + "\n" == "\n" && "PortNumber = 1186" + "\n" == "PortNumber = 1186\n";
    assert "DataDir = /var/lib/mysql-mgmd-data" + "\n" == "DataDir = /var/lib/mysql-mgmd-data\n";
    assert MgmSection(hostname, id)[3 + |IdLine(id)|] == "HostName = " + hostname + "\n";
  }

  // ---------------------------------------------------------------- deletion and appending

  /** deleteNodeFromFile on the text of the file. */
  ghost function Deleted(host: string -> bool, text: string): string {
    Concat(Keep(host, Lines(text)))
  }

  /** Deleting what was just appended gives the file back exactly when the file is empty or ends its last
      line, and no line outside the headers matched the host before. */
  lemma DeleteUndoesAppend(host: string -> bool, text: string, nodetype: string, hostname: string, id: int)
    requires nodetype in {"sql", "data", "management"} && '\n' !in hostname && host(HostLine(nodetype, hostname))
    ensures Deleted(host, text + NodeText(nodetype, hostname, id)) == text
            <==> Terminated(text) && Clean(host, Lines(text))
  {
    hide Lines, Concat, Keep, Clean, NodeText, Sections, HostLine, Terminated, HostSection;
    ghost var sections := Sections(nodetype, hostname, id);
    ghost var added := NodeText(nodetype, hostname, id);
    SectionsMentionHost(host, nodetype, hostname, id);
    NodeTextIsSections(nodetype, hostname, id);
    FlattenLines(host, sections);
    LinesOfLines(Flatten(sections));
    if Terminated(text) {
      LinesConcat(text, added);
      KeepSections(host, Lines(text), sections);
      DeletedIsSame(host, text);
    } else {
      TerminatedSum(text, added, nodetype, hostname, id);
      LinesTerminated(text + added);
      KeepLines(host, Lines(text + added));
      LinesOfLines(Keep(host, Lines(text + added)));
    }
  }

  /** Lines as a file has them: only the last may lack its newline. */
  predicate FileLines(lines: seq<string>) {
    forall k :: 0 <= k < |lines| ==> FileLine(lines[k], k + 1 == |lines|)
  }

  predicate FileLine(line: string, last: bool) {
    line != "" && '\n' !in line[..|line| - 1] && (last || line[|line| - 1] == '\n')
  }

  lemma {:induction false} LinesAreFileLines(text: string)
    ensures FileLines(Lines(text))
  {
    if text != "" {
      LinesAreFileLines(text[1..]);
      var rest := Lines(text[1..]);
      if text[0] != '\n' && rest != [] {
        var line := [text[0]] + rest[0];
        assert line[..|line| - 1] == [text[0]] + rest[0][..|rest[0]| - 1];
      }
    }
  }

  lemma {:induction false} FileLinesOf(lines: seq<string>)
    requires FileLines(lines)
    ensures Lines(Concat(lines)) == lines
  {
    if lines != [] {
      var first, rest := lines[0], lines[1..];
      assert FileLine(first, |lines| == 1);
      assert FileLines(rest) by {
        hide FileLine;
        assert forall k :: 0 <= k < |rest| ==> rest[k] == lines[k + 1];
      }
      FileLinesOf(rest);
      FirstLine(first, Concat(rest));
    }
  }

  /** Reading a line that is ended, or is the last. */
  lemma {:induction false} FirstLine(line: string, rest: string)
    requires FileLine(line, rest == "")
    ensures Lines(line + rest) == [line] + Lines(rest)
  {
    assert (line + rest)[1..] == line[1..] + rest;
    if |line| == 1 {
      assert line[1..] + rest == rest && line == [line[0]];
    } else {
      assert line[1..][..|line| - 2] == line[..|line| - 1][1..] && line[0] == line[..|line| - 1][0];
      FirstLine(line[1..], rest);
      assert line == [line[0]] + line[1..] && ([line[1..]] + Lines(rest))[1..] == Lines(rest);
    }
  }

  lemma {:induction false} KeepFileLines(host: string -> bool, lines: seq<string>)
    requires FileLines(lines)
    ensures FileLines(Keep(host, lines))
    decreases |lines|
  {
    hide IsHeader, Doomed;
    if lines != [] {
      var b := BlockEnd(lines);
      KeepFileLines(host, lines[b..]);
      if b == |lines| {
        KeepNothing(host);
        assert lines[..b] + [] == lines;
      }
    }
  }

  /** Deleting twice is deleting once, on every file. */
  lemma DeleteIdempotent(host: string -> bool, text: string)
    ensures Deleted(host, Deleted(host, text)) == Deleted(host, text)
  {
    hide Lines, Concat, Keep;
    LinesAreFileLines(text);
    KeepFileLines(host, Lines(text));
    FileLinesOf(Keep(host, Lines(text)));
    KeepIdempotent(host, Lines(text));
  }

  /** Nothing is deleted exactly when no line outside the headers matches. */
  lemma DeletedIsSame(host: string -> bool, text: string)
    requires Terminated(text)
    ensures Concat(Keep(host, Lines(text))) == text <==> Clean(host, Lines(text))
  {
    hide Lines, Concat, Keep, Clean;
    ConcatLines(text);
    LinesTerminated(text);
    KeepLines(host, Lines(text));
    LinesOfLines(Keep(host, Lines(text)));
    KeepIsClean(host, Lines(text));
    if Clean(host, Lines(text)) {
      KeepClean(host, Lines(text));
    }
  }

  lemma TerminatedSum(text: string, added: string, nodetype: string, hostname: string, id: int)
    requires nodetype in {"sql", "data", "management"} && added == NodeText(nodetype, hostname, id)
    ensures Terminated(text + added)
  {
  }

  /** A literal host name matches the line written for it. */
  lemma LiteralHostMatches(nodetype: string, hostname: string)
    ensures HasHost(hostname, HostLine(nodetype, hostname))
  {
    ghost var line, k := HostLine(nodetype, hostname), if nodetype == "management" then 11 else 9;
    assert line[k..] == hostname + "\n";
    assert line[..k] == if nodetype == "management" then "HostName = " else "hostname=";
  }

  // ---------------------------------------------------------------- the file

  class ConfigFile {
    var text: string

    /** deleteNodeFromFile. */
    method DeleteNodeFromFile(host: string -> bool)
      modifies this
      ensures text == Deleted(host, old(text))
    {
      hide Keep, IsHeader, Lines;
      var lines := DeleteSections(host, Lines(text));
      text := "";
      for n := 0 to |lines|
        invariant text == Concat(lines[..n])
      {
        assert lines[..n + 1] == lines[..n] + [lines[n]];
        ConcatSnoc(lines[..n], lines[n]);
        text := text + lines[n];
      }
      assert lines[..|lines|] == lines;
    }

    /** appendNodeToFile. */
    method AppendNodeToFile(nodetype: string, hostname: string, id: int)
      modifies this
      ensures text == old(text) + NodeText(nodetype, hostname, id)
    {
      if nodetype == "sql" {
        text := text + SqlToString(hostname, id);
      } else if nodetype == "data" {
        text := text + DataToString(hostname, id);
      } else if nodetype == "management" {
        text := text + MgmToString(hostname, id);
      } else {
        assert text + "" == text;
      }
    }
  }
}
