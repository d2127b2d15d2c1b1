/** The three readers of a log's tip, on the bytes of the file: the windowed backward scan of
    teaagent/audit.py, and the tail reader and full scan of teaagent/audit_chain.py. */
module TipReaders {
  import opened Json
  import opened Sequences
  import opened Utf8
  import opened TextLines
  import opened AuditChain
  import opened AuditLog
  import opened Strings

  /** `json.loads(line.strip())`; None for a blank line and for a JSONDecodeError. */
  type Reader = Text -> Option<Json>

  function ReadAll(read: Reader, lines: seq<Text>): seq<Line> {
    seq(|lines|, i requires 0 <= i < |lines| => read(lines[i]))
  }

  function FileLines(read: Reader, file: Bytes): seq<Line> {
    ReadAll(read, SplitLines(Decode(file)))
  }

  // ---------------------------------------------------------------- lines seen through a window

  /** The first byte from start on that begins a character. */
  function NextLead(file: Bytes, start: nat): (k: nat)
    requires start <= |file|
    ensures start <= k <= |file|
    ensures k == |file| || !IsCont(file[k])
    ensures forall i | start <= i < k :: IsCont(file[i])
    decreases |file| - start
  {
    if start == |file| || !IsCont(file[start]) then start else NextLead(file, start + 1)
  }

  lemma DecodeParts(bs: Bytes, x: Bytes, y: Bytes)
    requires bs == x + y && (y == [] || !IsCont(y[0]))
    ensures Decode(bs) == Decode(x) + Decode(y)
  {
    DecodeSplits(bs, |x|);
    assert bs[..|x|] == x && bs[|x|..] == y;
  }

  lemma WindowParts(file: Bytes, start: nat, k: nat)
    requires start <= k <= |file|
    ensures file == file[..k] + file[k..] && file[start..] == file[start..k] + file[k..]
  {
  }

  /** A window decodes to replacement characters for the cut character, then to a suffix of the text. */
  lemma WindowText(file: Bytes, start: nat) returns (a: Text, g: Text, b: Text)
    requires start <= |file|
    ensures Decode(file) == a + b && Decode(file[start..]) == g + b
    ensures forall i | 0 <= i < |g| :: g[i] == REPLACEMENT
  {
    var k := NextLead(file, start);
    var head, cut, rest := file[..k], file[start..k], file[k..];
    WindowParts(file, start, k);
    DecodeParts(file, head, rest);
    DecodeParts(file[start..], cut, rest);
    DecodeStray(cut);
    a, g, b := Decode(head), Decode(cut), Decode(rest);
  }

  /** The lines of a window are a possibly damaged first line and then the last lines of the file. The
      first one starts with a replacement character or is a suffix of the file's line before those. */
  ghost predicate SeenFrom(f: seq<Text>, w: seq<Text>, m: nat) {
    && w != [] && m <= |f| && f[m..] == w[1..]
    && ((w[0] != [] && w[0][0] == REPLACEMENT) || (0 < m && HasSuffix(f[m - 1], w[0])))
  }

  lemma WindowLines(file: Bytes, start: nat) returns (m: nat)
    requires start <= |file| && SplitLines(Decode(file[start..])) != []
    ensures SeenFrom(SplitLines(Decode(file)), SplitLines(Decode(file[start..])), m)
  {
    hide Decode, SplitLines, SeenFrom, HasSuffix;
    var a, g, b := WindowText(file, start);
    m := LinesBehind(a, g, b);
  }

  /** Replacement characters in front of a text only damage its first line, cut at |a| or not. */
  lemma LinesBehind(a: Text, g: Text, b: Text) returns (m: nat)
    requires (forall i | 0 <= i < |g| :: g[i] == REPLACEMENT) && SplitLines(g + b) != []
    ensures SeenFrom(SplitLines(a + b), SplitLines(g + b), m)
  {
    hide SplitLines, HasSuffix;
    assert forall i | 0 <= i < |g| :: !IsBreak(g[i]);
    if b == [] {
      assert g + b == g;
      NoLines();
      PlainLine(g);
      m := |SplitLines(a + b)|;
    } else {
      PrependPlain(g, b);
      assert (a + b)[|a|..] == b;
      m := CutLines(a + b, |a|);
      assert g == [] ==> g + SplitLines(b)[0] == SplitLines(b)[0];
    }
  }

  lemma NoLines()
    ensures SplitLines([]) == []
  {
  }

  // ---------------------------------------------------------------- the windowed scan for the tip

  predicate AnyHashed(lines: seq<Line>) {
    exists i | 0 <= i < |lines| :: IsHashed(lines[i])
  }

  /** A suffix that holds a hashed line has the tip of the whole; one that does not leaves it to the rest. */
  lemma {:induction false} TipOfSuffix(a: seq<Line>, b: seq<Line>)
    ensures ChainTip(a + b) == if AnyHashed(b) then ChainTip(b) else ChainTip(a)
  {
    if b == [] {
      assert a + b == a;
    } else {
      var n := |b| - 1;
      assert (a + b)[..|a + b| - 1] == a + b[..n] && (a + b)[|a + b| - 1] == b[n];
      TipOfSuffix(a, b[..n]);
      assert AnyHashed(b) <==> AnyHashed(b[..n]) || IsHashed(b[n]) by {
        if AnyHashed(b[..n]) {
          var i :| 0 <= i < n && IsHashed(b[..n][i]);
          assert IsHashed(b[i]);
        }
        if AnyHashed(b) && !IsHashed(b[n]) {
          var i :| 0 <= i <= n && IsHashed(b[i]);
          assert IsHashed(b[..n][i]);
        }
      }
    }
  }

  /** The lines a window contributes, without a damaged first one. */
  function Whole(file: Bytes, start: nat): seq<Text>
    requires start <= |file|
  {
    var lines := SplitLines(Decode(file[start..]));
    if start > 0 && lines != [] then lines[1..] else lines
  }

  lemma ReadSuffix(read: Reader, lines: seq<Text>, m: nat)
    requires m <= |lines|
    ensures |ReadAll(read, lines)| == |lines| && ReadAll(read, lines)[m..] == ReadAll(read, lines[m..])
  {
  }

  lemma WholeIsSuffix(read: Reader, file: Bytes, start: nat) returns (m: nat)
    requires start <= |file|
    ensures m <= |FileLines(read, file)| && FileLines(read, file)[m..] == ReadAll(read, Whole(file, start))
    ensures start == 0 ==> m == 0
  {
    var lines := SplitLines(Decode(file));
    if start == 0 {
      assert file[start..] == file && lines[0..] == lines;
      m := 0;
    } else if SplitLines(Decode(file[start..])) == [] {
      m := |lines|;
    } else {
      m := WindowLines(file, start);
    }
    ReadSuffix(read, lines, m);
  }

  /** The inner loop: the last hashed line among those of one window. */
  method ScanBack(read: Reader, lines: seq<Text>) returns (found: Option<Tip>)
    ensures found.None? ==> !AnyHashed(ReadAll(read, lines))
    ensures found.Some? ==> AnyHashed(ReadAll(read, lines)) && found.value == ChainTip(ReadAll(read, lines))
  {
    ghost var all := ReadAll(read, lines);
    var i := |lines|;
    while i > 0
      invariant 0 <= i <= |lines|
      invariant !AnyHashed(all[i..])
    {
      i := i - 1;
      var line := read(lines[i]);
      assert all[i..] == [line] + all[i + 1..] && all == all[..i + 1] + all[i + 1..];
      if IsHashed(line) {
        TipOfSuffix(all[..i + 1], all[i + 1..]);
        assert IsHashed(all[i]);
        return Some(Tip(Get(line.value.fields, "hash").s, StringOf(Get(line.value.fields, "created_at"))));
      }
    }
    assert all[0..] == all;
    return None;
  }

  /** The scan of a growing window at the end of the file finds the last hashed line of the whole file. */
  method ChainTipScan(read: Reader, file: Option<Bytes>) returns (tip: Tip)
    ensures tip == if file.None? then Tip(GENESIS, None) else ChainTip(FileLines(read, file.value))
  {
    if file.None? {
      return Tip(GENESIS, None);
    }
    var bytes := file.value;
    var size := |bytes|;
    if size <= 0 {
      return Tip(GENESIS, None);
    }
    ghost var full := FileLines(read, bytes);
    var window := 8192;
    while true
      invariant window > 0
      decreases size - window
    {
      var start := if size > window then size - window else 0;
      var lines := SplitLines(Decode(bytes[start..]));
      if start > 0 && lines != [] {
        lines := lines[1..];
      }
      ghost var m := WholeIsSuffix(read, bytes, start);
      assert full == full[..m] + full[m..];
      TipOfSuffix(full[..m], full[m..]);
      var found := ScanBack(read, lines);
      if found.Some? {
        return found.value;
      }
      if start == 0 {
        return Tip(GENESIS, None);
      }
      window := if size < window * 4 then size else window * 4;
    }
  }

  // ---------------------------------------------------------------- the tail reader and the full scan

  /** What both readers see in a line's value. Throws: `in` on a number, a boolean or null, or `.get` on a
      list or a string that contains both names. */
  datatype Verdict = Legacy | Hashed(hash: string) | BadHash | Throws

  function Judge(j: Json): Verdict {
    match j
    case JObj(o) =>
      if IsLegacy(o) then Legacy
      else if o["hash"].JStr? && o["hash"].s != "" then Hashed(o["hash"].s)
      else BadHash
    case JArr(items) => if JStr("prev_hash") in items && JStr("hash") in items then Throws else Legacy
    case JStr(s) => if Contains(s, "prev_hash") && Contains(s, "hash") then Throws else Legacy
    case _ => Throws
  }

  /** Unreadable stands for an exception that leaves the reader: of a lookup, or of the strict decoder. */
  datatype HashResult = Found(hash: string) | Unreadable

  /** The result of the full scan: forward, keeping the last usable hash. */
  function FullHash(lines: seq<Line>): HashResult {
    if lines == [] then Found(GENESIS)
    else
      var before := FullHash(lines[..|lines| - 1]);
      var last := lines[|lines| - 1];
      if before.Unreadable? || last.None? then before
      else
        match Judge(last.value)
        case Legacy => Found(GENESIS)
        case Hashed(h) => Found(h)
        case BadHash => before
        case Throws => Unreadable
  }

  /** The last readable line; None if there is none. */
  function LastLine(lines: seq<Line>): Line {
    if lines == [] then None
    else if lines[|lines| - 1].Some? then lines[|lines| - 1]
    else LastLine(lines[..|lines| - 1])
  }

  lemma {:induction false} LastLineIs(lines: seq<Line>, n: nat)
    requires n < |lines| && lines[n].Some? && forall i | n < i < |lines| :: lines[i].None?
    ensures LastLine(lines) == lines[n]
  {
    if n < |lines| - 1 {
      LastLineIs(lines[..|lines| - 1], n);
    }
  }

  lemma {:induction false} FindLastLine(lines: seq<Line>) returns (n: nat)
    ensures n <= |lines| && forall i | n <= i < |lines| :: lines[i].None?
    ensures if n == 0 then LastLine(lines).None? else lines[n - 1].Some? && LastLine(lines) == lines[n - 1]
  {
    if lines == [] || lines[|lines| - 1].Some? {
      n := |lines|;
    } else {
      n := FindLastLine(lines[..|lines| - 1]);
    }
  }

  /** The answer of the tail reader once it has found a readable line. */
  function Answer(j: Json): HashResult {
    match Judge(j)
    case Legacy => Found(GENESIS)
    case Hashed(h) => Found(h)
    case BadHash => Found(GENESIS)
    case Throws => Unreadable
  }

  const TAIL_SIZE := 4096

  function Tail(file: Bytes): Bytes {
    file[if |file| > TAIL_SIZE then |file| - TAIL_SIZE else 0..]
  }

  /** The full scan decodes strictly, unlike the tail reader. */
  function FullScan(read: Reader, file: Bytes): HashResult {
    match DecodeStrict(file)
    case None => Unreadable
    case Some(text) => FullHash(ReadAll(read, SplitLines(text)))
  }

  function TailHash(read: Reader, file: Bytes): HashResult {
    match LastLine(FileLines(read, Tail(file)))
    case Some(j) => Answer(j)
    case None => if |file| > TAIL_SIZE then FullScan(read, file) else Found(GENESIS)
  }

  lemma {:induction false} RaisedStays(lines: seq<Line>, n: nat)
    requires n <= |lines| && FullHash(lines[..n]).Unreadable?
    ensures FullHash(lines).Unreadable?
  {
    if n < |lines| {
      assert lines[..|lines| - 1][..n] == lines[..n];
      RaisedStays(lines[..|lines| - 1], n);
    } else {
      assert lines[..n] == lines;
    }
  }

  method LastChainHashFull(read: Reader, file: Bytes) returns (r: HashResult)
    ensures r == FullScan(read, file)
  {
    var text := DecodeStrict(file);
    if text.None? {
      return Unreadable;
    }
    var lines := SplitLines(text.value);
    ghost var full := ReadAll(read, lines);
    var lastHash := GENESIS;
    for i := 0 to |lines|
      invariant FullHash(full[..i]) == Found(lastHash)
    {
      assert full[..i + 1][..i] == full[..i] && full[i] == read(lines[i]);
      var line := read(lines[i]);
      if line.None? {
        continue;
      }
      match Judge(line.value) {
        case Legacy => lastHash := GENESIS;
        case Hashed(h) => lastHash := h;
        case BadHash =>
        case Throws =>
          RaisedStays(full, i + 1);
          return Unreadable;
      }
    }
    assert full[..|lines|] == full;
    return Found(lastHash);
  }

  method LastChainHash(read: Reader, file: Option<Bytes>) returns (r: HashResult)
    ensures r == if file.None? then Found(GENESIS) else TailHash(read, file.value)
  {
    if file.None? || |file.value| == 0 {
      return Found(GENESIS);
    }
    var bytes := file.value;
    var tail := SplitLines(Decode(Tail(bytes)));
    ghost var seen := FileLines(read, Tail(bytes));
    var i := |tail|;
    while i > 0
      invariant 0 <= i <= |tail| == |seen|
      invariant forall j | i <= j < |tail| :: seen[j].None?
    {
      i := i - 1;
      var line := read(tail[i]);
      if line.Some? {
        LastLineIs(seen, i);
        return Answer(line.value);
      }
    }
    ghost var n := FindLastLine(seen);
    if |bytes| > TAIL_SIZE {
      r := LastChainHashFull(read, bytes);
    } else {
      return Found(GENESIS);
    }
  }

  // ---------------------------------------------------------------- when the readers agree

  /** No damaged line reads as JSON: nothing that starts with U+FFFD, and no proper suffix of a line. */
  ghost predicate CutLinesDoNotRead(read: Reader, lines: seq<Text>) {
    && (forall t: Text | t != [] && t[0] == REPLACEMENT :: read(t).None?)
    && (forall line, piece | line in lines && HasSuffix(line, piece) && piece != line :: read(piece).None?)
  }

  ghost predicate ReadableObjects(lines: seq<Line>) {
    forall i | 0 <= i < |lines| && lines[i].Some? :: lines[i].value.JObj?
  }

  lemma {:induction false} ObjectsDoNotThrow(lines: seq<Line>)
    requires ReadableObjects(lines)
    ensures FullHash(lines).Found?
  {
    if lines != [] {
      ObjectsDoNotThrow(lines[..|lines| - 1]);
    }
  }

  lemma SeenLines(ft: seq<Text>, wt: seq<Text>, m: nat)
    requires SeenFrom(ft, wt, m)
    ensures wt != [] && |ft| == m + |wt| - 1 && forall i | 1 <= i < |wt| :: wt[i] == ft[m + i - 1]
  {
    assert forall i | 1 <= i < |wt| :: wt[i] == wt[1..][i - 1];
  }

  /** The last readable line of w is the last readable line of f. */
  ghost predicate SameLast(f: seq<Line>, w: seq<Line>) {
    LastLine(w).Some? ==> LastLine(f) == LastLine(w)
  }

  /** All lines of w but the first are the last lines of f, and the first is one of f's too if it reads. */
  lemma LastOfTail(f: seq<Line>, w: seq<Line>, m: nat)
    requires w != [] && |f| == m + |w| - 1
    requires forall i | 1 <= i < |w| :: w[i] == f[m + i - 1]
    requires w[0].Some? ==> 0 < m && w[0] == f[m - 1]
    ensures SameLast(f, w)
  {
    hide LastLine;
    var n := FindLastLine(w);
    if n > 0 {
      forall i | m + n - 1 <= i < |f| ensures f[i].None? {
        assert f[i] == w[i - m + 1];
      }
      LastLineIs(f, m + n - 2);
    }
  }

  lemma SeenReads(read: Reader, ft: seq<Text>, wt: seq<Text>, m: nat)
    requires SeenFrom(ft, wt, m) && CutLinesDoNotRead(read, ft)
    ensures SameLast(ReadAll(read, ft), ReadAll(read, wt))
  {
    hide CutLinesDoNotRead, SeenFrom, SameLast;
    SeenLines(ft, wt, m);
    if read(wt[0]).Some? {
      FirstIsWhole(read, ft, wt, m);
    }
    LastOfTail(ReadAll(read, ft), ReadAll(read, wt), m);
  }

  /** If the first line of the tail reads, it is a whole line. */
  lemma FirstIsWhole(read: Reader, ft: seq<Text>, wt: seq<Text>, m: nat)
    requires SeenFrom(ft, wt, m) && CutLinesDoNotRead(read, ft) && read(wt[0]).Some?
    ensures 0 < m && wt[0] == ft[m - 1]
  {
    if 0 < m {
      assert ft[m - 1] in ft;
    }
  }

  lemma WindowReads(read: Reader, file: Bytes, start: nat)
    requires start <= |file| && CutLinesDoNotRead(read, SplitLines(Decode(file)))
    ensures SameLast(FileLines(read, file), FileLines(read, file[start..]))
  {
    var wt := SplitLines(Decode(file[start..]));
    if wt != [] {
      var m := WindowLines(file, start);
      SeenReads(read, SplitLines(Decode(file)), wt, m);
    }
  }

  /** A readable line of the tail is the last readable line of the file. */
  lemma TailReadsLast(read: Reader, file: Bytes)
    requires CutLinesDoNotRead(read, SplitLines(Decode(file)))
    ensures SameLast(FileLines(read, file), FileLines(read, Tail(file)))
  {
    WindowReads(read, file, if |file| > TAIL_SIZE then |file| - TAIL_SIZE else 0);
  }

  /** The full scan in terms of the last readable line, unless its hash is unusable. */
  lemma {:induction false} FullHashOfLast(lines: seq<Line>)
    requires ReadableObjects(lines)
    ensures LastLine(lines).None? ==> FullHash(lines) == Found(GENESIS)
    ensures LastLine(lines).Some? ==>
              && LastLine(lines).value.JObj?
              && (!Judge(LastLine(lines).value).BadHash? ==> FullHash(lines) == Answer(LastLine(lines).value))
  {
    if lines != [] {
      ObjectsDoNotThrow(lines[..|lines| - 1]);
      FullHashOfLast(lines[..|lines| - 1]);
    }
  }

  /** Some line has a hash other than the genesis sentinel, and no legacy line follows it. */
  ghost predicate HasTip(lines: seq<Line>) {
    exists k | 0 <= k < |lines| ::
      && lines[k].Some? && Judge(lines[k].value).Hashed? && Judge(lines[k].value).hash != GENESIS
      && forall j | k < j < |lines| && lines[j].Some? :: Judge(lines[j].value).BadHash?
  }

  lemma HasTipSnoc(lines: seq<Line>, last: Line)
    ensures HasTip(lines + [last]) <==>
              || (last.Some? && Judge(last.value).Hashed? && Judge(last.value).hash != GENESIS)
              || ((last.None? || Judge(last.value).BadHash?) && HasTip(lines))
  {
    hide Judge;
    var all, n := lines + [last], |lines|;
    assert all[n] == last && forall i | 0 <= i < n :: all[i] == lines[i];
    if HasTip(all) && !(last.Some? && Judge(last.value).Hashed?) {
      var k :| 0 <= k < |all| && all[k].Some? && Judge(all[k].value).Hashed? && Judge(all[k].value).hash != GENESIS
               && forall j | k < j < |all| && all[j].Some? :: Judge(all[j].value).BadHash?;
      assert k < n && forall j | k < j < n && lines[j].Some? :: all[j] == lines[j];
    }
    if last.None? || Judge(last.value).BadHash? {
      if HasTip(lines) {
        var k :| 0 <= k < n && lines[k].Some? && Judge(lines[k].value).Hashed?
                 && Judge(lines[k].value).hash != GENESIS
                 && forall j | k < j < n && lines[j].Some? :: Judge(lines[j].value).BadHash?;
        assert forall j | k < j < |all| && all[j].Some? :: Judge(all[j].value).BadHash?;
      }
    }
  }

  /** The full scan finds a tip exactly if there is one. */
  lemma {:induction false} FullHashFindsTip(lines: seq<Line>)
    requires ReadableObjects(lines)
    ensures FullHash(lines) != Found(GENESIS) <==> HasTip(lines)
  {
    if lines != [] {
      hide HasTip;
      var n := |lines| - 1;
      FullHashFindsTip(lines[..n]);
      ObjectsDoNotThrow(lines[..n]);
      HasTipSnoc(lines[..n], lines[n]);
      assert lines == lines[..n] + [lines[n]];
    } else {
      assert !HasTip(lines);
    }
  }

  lemma AnswerOfObject(j: Json)
    requires j.JObj?
    ensures Answer(j).Found? && (Judge(j).BadHash? ==> Answer(j) == Found(GENESIS))
  {
  }

  lemma FullScanIs(read: Reader, file: Bytes)
    ensures FullScan(read, file) == if WellFormed(file) then FullHash(FileLines(read, file)) else Unreadable
  {
  }

  /** On logs of objects whose damaged lines do not read, the tail reader and the full scan disagree in
      exactly two cases, both with a readable line in the tail (or a file that fits into it). Either the file
      is not UTF-8, so that the full scan raises. Or the last readable line has an unusable hash, and an
      earlier line has a hash with no legacy line after it: the full scan keeps that hash, the tail reader
      falls back to genesis. */
  lemma TailDisagreesIff(read: Reader, file: Bytes)
    requires CutLinesDoNotRead(read, SplitLines(Decode(file))) && ReadableObjects(FileLines(read, file))
    ensures var f := FileLines(read, file); var inTail := LastLine(FileLines(read, Tail(file))).Some?;
            TailHash(read, file) != FullScan(read, file) <==>
            if !WellFormed(file) then inTail || |file| <= TAIL_SIZE
            else inTail && LastLine(f).Some? && Judge(LastLine(f).value).BadHash? && HasTip(f)
  {
    hide Judge, HasTip, WellFormed, CutLinesDoNotRead, ReadableObjects, FileLines, FullScan, FullHash, Answer,
      LastLine, SplitLines, Decode;
    var f := FileLines(read, file);
    TailReadsLast(read, file);
    FullScanIs(read, file);
    FullHashOfLast(f);
    FullHashFindsTip(f);
    if LastLine(f).Some? {
      AnswerOfObject(LastLine(f).value);
    }
    if |file| <= TAIL_SIZE {
      assert Tail(file) == file;
    }
  }

  /** The tail reader's answer, if the last readable line of the tail is an object: its hash if both chain fields
      are there and the hash is a string other than "", and genesis in any other case. */
  lemma TailAnswers(read: Reader, file: Bytes, o: Fields)
    requires LastLine(FileLines(read, Tail(file))) == Some(JObj(o))
    ensures TailHash(read, file) == Found(
              if "prev_hash" in o && "hash" in o && o["hash"].JStr? && o["hash"].s != "" then o["hash"].s
              else "genesis")
  {
  }

  /** The full scan's answer, from the last object that decides it: one with a usable hash gives that hash, one
      without its chain fields genesis; later objects have both fields and an unusable hash. */
  lemma {:induction false} FullAnswers(lines: seq<Line>, o: Fields, rest: seq<Line>)
    requires ReadableObjects(lines) && ReadableObjects(rest)
    requires "prev_hash" !in o || "hash" !in o || (o["hash"].JStr? && o["hash"].s != "")
    requires forall i | 0 <= i < |rest| && rest[i].Some? ::
               "prev_hash" in rest[i].value.fields && "hash" in rest[i].value.fields &&
               (!rest[i].value.fields["hash"].JStr? || rest[i].value.fields["hash"].s == "")
    ensures FullHash(lines + [Some(JObj(o))] + rest) ==
            Found(if "prev_hash" in o && "hash" in o then o["hash"].s else "genesis")
  {
    var all := lines + [Some(JObj(o))] + rest;
    if rest == [] {
      assert all == lines + [Some(JObj(o))] && all[..|all| - 1] == lines;
      ObjectsDoNotThrow(lines);
    } else {
      var n := |rest| - 1;
      FullAnswers(lines, o, rest[..n]);
      assert all[..|all| - 1] == lines + [Some(JObj(o))] + rest[..n] && all[|all| - 1] == rest[n];
    }
  }

  const USABLE := JObj(map["prev_hash" := JStr(GENESIS), "hash" := JStr("x")])
  const UNUSABLE := JObj(map["prev_hash" := JStr("x"), "hash" := JStr("")])

  lemma TwoLineFile(file: Bytes)
    requires file == EncodeAll([97, 10, 98, 10])
    ensures SplitLines(Decode(file)) == [[97], [98]] && Tail(file) == file
  {
    var text: Text := [97, 10, 98, 10];
    DecodeEncodedThen(text, []);
    assert file + [] == file && text + Decode([]) == text;
    OneLine(98, []);
    OneLine(97, [98, 10]);
    assert SplitLines([]) == [] && [[98]] + [] == [[98]];
    assert [98, 10] + [] == [98, 10] && [97, 10] + [98, 10] == text;
    EncodedAtMost(text);
  }

  /** A log where they do disagree: a hashed line `a`, then a line `b` whose hash is the empty string. */
  lemma TailCanDisagree(read: Reader, file: Bytes)
    requires file == EncodeAll([97, 10, 98, 10])
    requires forall t :: read(t) == if t == [97] then Some(USABLE) else if t == [98] then Some(UNUSABLE) else None
    ensures CutLinesDoNotRead(read, SplitLines(Decode(file))) && ReadableObjects(FileLines(read, file))
    ensures TailHash(read, file) == Found(GENESIS) && FullScan(read, file) == Found("x")
  {
    hide Decode, SplitLines, WellFormed, EncodeAll, Judge, Tail, CutLinesDoNotRead;
    TwoLineFile(file);
    EncodedIsWellFormed([97, 10, 98, 10]);
    TwoLinesDoNotCut(read);
    assert FileLines(read, file) == [Some(USABLE), Some(UNUSABLE)];
    TwoHashes();
    FullScanIs(read, file);
  }

  lemma TwoLinesDoNotCut(read: Reader)
    requires forall t :: read(t) == if t == [97] then Some(USABLE) else if t == [98] then Some(UNUSABLE) else None
    ensures CutLinesDoNotRead(read, [[97], [98]])
  {
  }

  lemma TwoHashes()
    ensures var f := [Some(USABLE), Some(UNUSABLE)];
            && ReadableObjects(f) && FullHash(f) == Found("x")
            && LastLine(f) == Some(UNUSABLE) && Answer(UNUSABLE) == Found(GENESIS)
  {
    var f := [Some(USABLE), Some(UNUSABLE)];
    assert f[..1] == [Some(USABLE)] && f[..1][..0] == [];
    assert FullHash([Some(USABLE)]) == Found("x");
  }

  lemma AsciiDecodes(text: Text)
    requires text == [10, 97, 10]
    ensures EncodeAll(text) == [10, 97, 10] && Decode([10, 97, 10]) == text
  {
    assert text[1..] == [97, 10] && text[1..][1..] == [10] && text[1..][1..][1..] == [];
    assert EncodeAll(text[1..][1..]) == [10] && EncodeAll(text[1..]) == [97, 10];
    hide Decode;
    DecodeEncode(text);
  }

  lemma StrayByte(file: Bytes, rest: Bytes)
    requires file == [0xFF] + rest
    ensures !WellFormed(file) && Decode(file) == [REPLACEMENT] + Decode(rest)
  {
    assert file[..1] == [0xFF] && file[1..] == rest;
  }

  lemma IllFormedFile(file: Bytes)
    requires file == [0xFF, 10, 97, 10]
    ensures !WellFormed(file) && Decode(file) == [REPLACEMENT, 10, 97, 10]
  {
    hide Decode, EncodeAll, WellFormed;
    AsciiDecodes([10, 97, 10]);
    assert file == [0xFF] + [10, 97, 10];
    StrayByte(file, [10, 97, 10]);
    assert [REPLACEMENT] + [10, 97, 10] == [REPLACEMENT, 10, 97, 10];
  }

  /** And a log that is not UTF-8: the byte FF on a line of its own, then the hashed line `a`. */
  lemma IllFormedCanDisagree(read: Reader, file: Bytes)
    requires file == [0xFF, 10, 97, 10]
    requires forall t :: read(t) == if t == [97] then Some(USABLE) else None
    ensures TailHash(read, file) == Found("x") && FullScan(read, file) == Unreadable
  {
    hide Decode, WellFormed, EncodeAll, SplitLines;
    IllFormedFile(file);
    assert Tail(file) == file;
    OneLine(97, []);
    OneLine(REPLACEMENT, [97, 10]);
    assert [97, 10] + [] == [97, 10] && [REPLACEMENT, 10] + [97, 10] == Decode(file);
    NoLines();
    assert SplitLines(Decode(file)) == [[REPLACEMENT], [97]];
    assert FileLines(read, file) == [None, Some(USABLE)];
  }

  lemma OneLine(c: Point, rest: Text)
    requires !IsBreak(c)
    ensures SplitLines([c, 10] + rest) == [[c]] + SplitLines(rest)
  {
    assert [c, 10] + rest == [c] + ([10] + rest);
    LineThenFeed([c], rest);
  }

  lemma {:induction false} EncodedAtMost(text: Text)
    ensures |EncodeAll(text)| <= 4 * |text|
  {
    if text != [] {
      EncodedAtMost(text[1..]);
    }
  }

  /** The verifier's lines: it strips white space around the whole text before it splits it. */
  function VerifierLines(read: Reader, file: Bytes): seq<Line> {
    ReadAll(read, Trim(SplitLines(Decode(file))))
  }

  lemma {:induction false} PaddedAfter(g: seq<Line>, b: seq<Line>)
    requires forall i | 0 <= i < |b| :: b[i].None?
    ensures LastLine(g + b) == LastLine(g) && ChainTip(g + b) == ChainTip(g)
  {
    if b == [] {
      assert g + b == g;
    } else {
      var n := |b| - 1;
      assert (g + b)[..|g + b| - 1] == g + b[..n] && (g + b)[|g + b| - 1] == b[n];
      PaddedAfter(g, b[..n]);
    }
  }

  lemma {:induction false} PaddedBefore(a: seq<Line>, g: seq<Line>)
    requires forall i | 0 <= i < |a| :: a[i].None?
    ensures LastLine(a + g) == LastLine(g) && ChainTip(a + g) == ChainTip(g)
  {
    if g == [] {
      PaddedAfter([], a);
      assert a + g == a && [] + a == a;
    } else {
      var n := |g| - 1;
      assert (a + g)[..|a + g| - 1] == a + g[..n] && (a + g)[|a + g| - 1] == g[n];
      PaddedBefore(a, g[..n]);
    }
  }

  /** Blank lines around the events change nothing for the readers. */
  lemma TrimmedLines(read: Reader, file: Bytes)
    requires forall t | IsBlank(t) :: read(t).None?
    ensures var f := FileLines(read, file); var g := VerifierLines(read, file);
            && LastLine(f) == LastLine(g) && ChainTip(f) == ChainTip(g)
            && (ReadableObjects(g) ==> ReadableObjects(f))
  {
    hide Decode, SplitLines, Trim, LastLine, ChainTip, IsBlank;
    var lines := SplitLines(Decode(file));
    var before, after := TrimIs(lines);
    var a, g, b := ReadAll(read, before), ReadAll(read, Trim(lines)), ReadAll(read, after);
    assert FileLines(read, file) == a + g + b;
    assert forall i | 0 <= i < |a| :: before[i] in before;
    assert forall i | 0 <= i < |b| :: after[i] in after;
    PaddedAfter(a + g, b);
    PaddedBefore(a, g);
  }

  /** On a strictly accepted log all three readers return the verifier's final anchor. The verifier reads the
      file with the strict decoder too, and may find blank lines around the events. */
  lemma ReadersAgreeOnAccepted(cfg: Config, read: Reader, file: Bytes)
    requires RejectsLegacy(cfg) && WellFormed(file) && Accepted(cfg, VerifierLines(read, file))
    requires (forall x :: cfg.crypto.digest(x) != "") && CutLinesDoNotRead(read, SplitLines(Decode(file)))
    requires forall t | IsBlank(t) :: read(t).None?
    ensures var g := VerifierLines(read, file); var h := ChainTip(FileLines(read, file)).hash;
            && Replay(cfg, g).Going? && Replay(cfg, g).scan.prev == JStr(h)
            && FullScan(read, file) == Found(h) && TailHash(read, file) == Found(h)
  {
    hide Accepted, WellFormed, CutLinesDoNotRead, ChainTip, Replay, FullHash, LastLine, ReadableObjects, IsBlank,
      FileLines, VerifierLines, TailHash, FullScan, SplitLines, Decode;
    var f, g := FileLines(read, file), VerifierLines(read, file);
    ReplayDecides(cfg, g);
    AcceptedIsReadable(cfg, g);
    TrimmedLines(read, file);
    TailDisagreesIff(read, file);
    FullScanIs(read, file);
    FullHashOfLast(f);
  }

  lemma ChainedIsHashed(cfg: Config, line: Line, anchor: Json)
    requires Chained(cfg, line, anchor) && forall x :: cfg.crypto.digest(x) != ""
    ensures IsHashed(line) && !IsLegacy(line.value.fields)
    ensures Judge(line.value) == Hashed(Get(line.value.fields, "hash").s)
  {
  }

  lemma LastIsHashed(cfg: Config, f: seq<Line>)
    requires RejectsLegacy(cfg) && Accepted(cfg, f) && f != [] && forall x :: cfg.crypto.digest(x) != ""
    ensures var last := f[|f| - 1];
            && last.Some? && last.value.JObj? && Judge(last.value) == Hashed(ChainTip(f).hash)
            && Anchor(f, |f|) == JStr(ChainTip(f).hash) && LastLine(f) == last
  {
    assert LineOk(cfg, f, |f| - 1);
    hide Accepted, Chained, Judge;
    ChainedIsHashed(cfg, f[|f| - 1], Anchor(f, |f| - 1));
  }

  lemma AcceptedIsReadable(cfg: Config, f: seq<Line>)
    requires RejectsLegacy(cfg) && Accepted(cfg, f) && forall x :: cfg.crypto.digest(x) != ""
    ensures ReadableObjects(f)
    ensures Anchor(f, |f|) == JStr(ChainTip(f).hash)
    ensures if f == [] then LastLine(f).None? && ChainTip(f).hash == GENESIS
            else LastLine(f).Some? && Judge(LastLine(f).value) == Hashed(ChainTip(f).hash)
  {
    hide Judge;
    forall i | 0 <= i < |f| ensures f[i].Some? && f[i].value.JObj? {
      assert LineOk(cfg, f, i);
    }
    if f != [] {
      hide LastLine, ChainTip, Anchor, Accepted;
      LastIsHashed(cfg, f);
    }
  }

  // ---------------------------------------------------------------- appending bytes appends lines

  /** A file of whole lines. */
  predicate EndsLine(file: Bytes) {
    file == [] || file[|file| - 1] == 10
  }

  lemma {:induction false} DecodeEndsLine(file: Bytes)
    requires EndsLine(file)
    ensures Decode(file) == [] || Decode(file)[|Decode(file)| - 1] == 10
  {
    if file != [] {
      var n := |file| - 1;
      DecodeParts(file, file[..n], [10]);
      assert Decode([10]) == [10];
    }
  }

  lemma PrintedLine(printed: Text)
    requires Encodable(printed) && printed != [] && forall i | 0 <= i < |printed| :: !IsBreak(printed[i])
    ensures EncodeAll(printed + [10]) != [] && !IsCont(EncodeAll(printed + [10])[0])
    ensures Decode(EncodeAll(printed + [10])) == printed + [10]
    ensures SplitLines(printed + [10]) == [printed]
  {
    hide EncodeAll, EncodePoint, Decode, IsBreak;
    var t := printed + [10];
    assert t == printed + ([10] + []);
    LineThenFeed(printed, []);
    assert [printed] + [] == [printed];
    PrintedEncodes(t);
  }

  lemma PrintedEncodes(t: Text)
    requires Encodable(t) && t != []
    ensures EncodeAll(t) != [] && !IsCont(EncodeAll(t)[0]) && Decode(EncodeAll(t)) == t
  {
    DecodeEncode(t);
  }

  lemma LastOfSum(a: Bytes, b: Bytes, last: Byte)
    ensures (a + (b + [last]))[|a + (b + [last])| - 1] == last
  {
  }

  lemma AppendSplits(file: Bytes, more: Bytes, printed: Text)
    requires EndsLine(file) && more != [] && !IsCont(more[0])
    requires Decode(more) == printed + [10] && SplitLines(printed + [10]) == [printed]
    ensures SplitLines(Decode(file + more)) == SplitLines(Decode(file)) + [printed]
  {
    DecodeParts(file + more, file, more);
    DecodeEndsLine(file);
    SplitAppend(Decode(file), printed + [10]);
  }

  lemma ReadConcat(read: Reader, a: seq<Text>, b: seq<Text>)
    ensures ReadAll(read, a + b) == ReadAll(read, a) + ReadAll(read, b)
  {
  }

  lemma {:induction false} EncodedEnd(text: Text)
    ensures EncodeAll(text + [10]) == EncodeAll(text) + [10]
  {
    if text == [] {
      assert text + [10] == [10];
    } else {
      assert (text + [10])[1..] == text[1..] + [10];
      EncodedEnd(text[1..]);
      Regroup(EncodePoint(text[0]), EncodeAll(text[1..]), [10]);
    }
  }

  lemma AppendReads(read: Reader, file: Bytes, more: Bytes, printed: Text)
    requires EndsLine(file) && more != [] && !IsCont(more[0])
    requires Decode(more) == printed + [10] && SplitLines(printed + [10]) == [printed]
    ensures FileLines(read, file + more) == FileLines(read, file) + [read(printed)]
  {
    AppendSplits(file, more, printed);
    ReadConcat(read, SplitLines(Decode(file)), [printed]);
  }

  lemma AppendEndsLine(file: Bytes, printed: Text)
    ensures EndsLine(file + EncodeAll(printed + [10]))
  {
    EncodedEnd(printed);
    LastOfSum(file, EncodeAll(printed), 10);
  }

  /** Writing a printed value and a line feed at the end of a file of whole lines adds exactly one line to
      what the readers see and leaves a file of whole lines, so a log can be modelled as the sequence of its
      parsed lines. */
  lemma AppendAddsLine(read: Reader, file: Bytes, printed: Text)
    requires EndsLine(file) && Encodable(printed) && printed != []
    requires forall i | 0 <= i < |printed| :: !IsBreak(printed[i])
    ensures FileLines(read, file + EncodeAll(printed + [10])) == FileLines(read, file) + [read(printed)]
    ensures EndsLine(file + EncodeAll(printed + [10]))
  {
    PrintedLine(printed);
    AppendReads(read, file, EncodeAll(printed + [10]), printed);
    AppendEndsLine(file, printed);
  }
}
