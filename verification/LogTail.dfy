// ui::LogFileWatcher: reading the tail of a growing log file, notification by notification.
module LogTail {
  import opened Histories
  import opened Wrappers

  const NEWLINE := '\n'

  /** efsw's kinds of file events. */
  datatype FileAction = Add | Delete | Modified | Moved

  /** The length of the first line. */
  function LineEnd(s: string): (k: nat)
    ensures k <= |s|
    ensures forall j :: 0 <= j < k ==> s[j] != NEWLINE
    ensures k < |s| ==> s[k] == NEWLINE
  {
    LineEndFrom(s, 0)
  }

  function LineEndFrom(s: string, i: nat): (k: nat)
    requires i <= |s|
    ensures i <= k <= |s|
    ensures forall j :: i <= j < k ==> s[j] != NEWLINE
    ensures k < |s| ==> s[k] == NEWLINE
    decreases |s| - i
  {
    if i == |s| || s[i] == NEWLINE then i else LineEndFrom(s, i + 1)
  }

  function FirstLine(s: string): (r: string) {
    s[..LineEnd(s)]
  }

  /** What follows the first line and its newline. */
  function AfterLine(s: string): (r: string)
    ensures s != [] ==> |r| < |s|
  {
    if LineEnd(s) == |s| then [] else s[LineEnd(s) + 1..]
  }

  /** The lines of a text; a last line without a newline counts, an empty rest does not. */
  function Lines(s: string): (r: seq<string>)
    ensures r == [] <==> s == []
    decreases |s|
  {
    if s == [] then [] else [FirstLine(s)] + Lines(AfterLine(s))
  }

  // ---------------------------------------------------------------------------
  // The stream
  // ---------------------------------------------------------------------------

  /** The std::ifstream: its position and its two state bits. */
  class Watcher {
    const filename: string
    var pos: nat
    var eof: bool
    var fail: bool

    constructor (filename: string)
      ensures this.filename == filename && pos == 0 && !eof && !fail
    {
      this.filename := filename;
      pos, eof, fail := 0, false, false;
    }

    /** What is left to read of the file's present content. */
    function Rest(file: string): (r: string)
      reads this`pos
    {
      if pos <= |file| then file[pos..] else []
    }

    /** std::getline on the file's present content; ok is the stream's truth value afterwards. */
    method GetLine(file: string) returns (ok: bool, line: string)
      modifies this`pos, this`eof, this`fail
      ensures ok <==> !old(eof) && !old(fail) && old(Rest(file)) != []
      ensures ok ==> line == FirstLine(old(Rest(file))) && Rest(file) == AfterLine(old(Rest(file))) && !fail
      ensures ok && eof ==> Rest(file) == []
      ensures ok ==> old(pos) < pos <= |file|
      ensures !ok ==> fail && pos == old(pos) && (!old(fail) ==> eof)
    {
      line := "";
      if eof || fail {
        fail := true;
        return false, line;
      }
      ghost var start, rest := pos, Rest(file);
      while pos < |file| && file[pos] != NEWLINE
        invariant pos == start + |line| && |line| <= LineEnd(rest) && line == rest[..|line|]
        modifies this`pos
      {
        assert rest[|line|] == file[pos];
        line := line + [file[pos]];
        pos := pos + 1;
      }
      if pos < |file| {
        assert rest[|line|] == file[pos];
        assert |line| == LineEnd(rest);
        pos := pos + 1;
        assert file[pos..] == rest[|line| + 1..];
        return true, line;
      }
      assert |line| == |rest|;
      eof := true;
      if line == "" {
        fail := true;
      }
      return !fail, line;
    }

    /** handleFileAction: None if the callback is not called, else the lines it is called with. */
    method HandleFileAction(name: string, action: FileAction, file: string) returns (r: Option<seq<string>>)
      requires !eof && !fail
      modifies this`pos, this`eof, this`fail
      ensures !eof && !fail
      ensures r.Some? <==> name == filename && action.Modified?
      ensures r.None? ==> pos == old(pos)
      ensures r.Some? ==> r.value == Lines(old(Rest(file))) && Rest(file) == []
      ensures pos == old(pos) || old(pos) < pos <= |file|
    {
      if name != filename || !action.Modified? {
        return None;
      }
      var lines: seq<string> := [];
      ghost var whole := Lines(Rest(file));
      var ok, line := GetLine(file);
      while ok
        invariant ok ==> !fail && whole == lines + ([line] + Lines(Rest(file)))
        invariant ok && eof ==> Rest(file) == []
        invariant !ok ==> eof && fail && whole == lines && Rest(file) == []
        invariant pos == old(pos) || old(pos) < pos <= |file|
        decreases if ok then 1 + |Rest(file)| else 0
      {
        Append(lines, line, Lines(Rest(file)));
        lines := lines + [line];
        ok, line := GetLine(file);
      }
      if eof {
        eof, fail := false, false;
      }
      return Some(lines);
    }
  }

  lemma Append(xs: seq<string>, x: string, rest: seq<string>)
    ensures xs + ([x] + rest) == xs + [x] + rest
  {
  }

  lemma LineEndIs(s: string, k: nat)
    requires k <= |s| && (k < |s| ==> s[k] == NEWLINE)
    requires forall j :: 0 <= j < k ==> s[j] != NEWLINE
    ensures LineEnd(s) == k
  {
  }

  // ---------------------------------------------------------------------------
  // Cutting a text in two
  // ---------------------------------------------------------------------------

  /** The text ends inside a line. */
  predicate MidLine(s: string) {
    s != [] && s[|s| - 1] != NEWLINE
  }

  /** The lines of two pieces, with the line that was cut in two, if any, joined again. */
  function Join(a: seq<string>, b: seq<string>, cut: bool): (r: seq<string>) {
    if cut && a != [] && b != [] then a[..|a| - 1] + [a[|a| - 1] + b[0]] + b[1..] else a + b
  }

  lemma FirstLineOfConcat(a: string, b: string)
    requires a != [] && LineEnd(a) < |a|
    ensures FirstLine(a + b) == FirstLine(a) && AfterLine(a + b) == AfterLine(a) + b
    ensures AfterLine(a) == [] ==> !MidLine(a)
    ensures AfterLine(a) != [] ==> MidLine(AfterLine(a)) == MidLine(a)
  {
    LineEndIs(a + b, LineEnd(a));
  }

  lemma WholeLine(a: string)
    requires a != [] && LineEnd(a) == |a|
    ensures MidLine(a) && Lines(a) == [a]
  {
    assert a[..|a|] == a;
    assert Lines(a) == [a] + Lines([]);
  }

  lemma LineEndAcross(a: string, b: string)
    requires LineEnd(a) == |a|
    ensures LineEnd(a + b) == |a| + LineEnd(b)
  {
    LineEndIs(a + b, |a| + LineEnd(b));
  }

  lemma FirstLineAcross(a: string, b: string)
    requires a != [] && b != [] && LineEnd(a) == |a|
    ensures FirstLine(a + b) == a + FirstLine(b) && AfterLine(a + b) == AfterLine(b)
  {
    LineEndAcross(a, b);
    CutConcat(a, b, LineEnd(b));
  }

  lemma CutConcat(a: string, b: string, j: nat)
    requires j <= |b|
    ensures (a + b)[..|a| + j] == a + b[..j]
    ensures (a + b)[|a| + j..] == b[j..]
    ensures j < |b| ==> (a + b)[|a| + j + 1..] == b[j + 1..]
  {
  }

  lemma JoinCons(x: string, a: seq<string>, b: seq<string>, cut: bool)
    requires a != [] || !cut
    ensures Join([x] + a, b, cut) == [x] + Join(a, b, cut)
  {
    if cut && b != [] {
      var k := |a| - 1;
      assert ([x] + a)[..k + 1] == [x] + a[..k];
    } else {
      assert [x] + a + b == [x] + (a + b);
    }
  }

  lemma LinesAcross(a: string, b: string)
    requires a != [] && b != [] && LineEnd(a) == |a|
    ensures Lines(a + b) == Join(Lines(a), Lines(b), MidLine(a))
  {
    WholeLine(a);
    FirstLineAcross(a, b);
    assert Lines(a + b) == [a + FirstLine(b)] + Lines(AfterLine(b));
    JoinOne(a, FirstLine(b), Lines(AfterLine(b)));
  }

  lemma JoinOne(x: string, y: string, ys: seq<string>)
    ensures Join([x], [y] + ys, true) == [x + y] + ys
  {
    assert [x][..0] + [x + y] == [x + y];
    assert ([y] + ys)[1..] == ys;
  }

  lemma LinesThenConcat(a: string, b: string)
    requires a != [] && LineEnd(a) < |a|
    requires Lines(AfterLine(a) + b) == Join(Lines(AfterLine(a)), Lines(b), MidLine(AfterLine(a)))
    ensures Lines(a + b) == Join(Lines(a), Lines(b), MidLine(a))
  {
    FirstLineOfConcat(a, b);
    JoinCons(FirstLine(a), Lines(AfterLine(a)), Lines(b), MidLine(AfterLine(a)));
    assert Lines(a + b) == [FirstLine(a)] + Lines(AfterLine(a) + b);
  }

  lemma {:induction false} LinesOfConcat(a: string, b: string)
    ensures Lines(a + b) == Join(Lines(a), Lines(b), MidLine(a))
    decreases |a|
  {
    if a == [] {
      assert a + b == b;
      assert [] + Lines(b) == Lines(b);
    } else if b == [] {
      assert a + b == a;
      assert Lines(a) + [] == Lines(a);
    } else if LineEnd(a) < |a| {
      LinesOfConcat(AfterLine(a), b);
      LinesThenConcat(a, b);
    } else {
      LinesAcross(a, b);
    }
  }

  /** Lines put back together, each with its newline. */
  function Ended(lines: seq<string>): (s: string)
    decreases |lines|
  {
    if lines == [] then [] else lines[0] + [NEWLINE] + Ended(lines[1..])
  }

  /** The text with a newline at its end, unless it is empty or has one. */
  function Closed(s: string): (r: string) {
    if MidLine(s) then s + [NEWLINE] else s
  }

  lemma EndedCons(x: string, lines: seq<string>)
    ensures Ended([x] + lines) == x + [NEWLINE] + Ended(lines)
  {
    assert ([x] + lines)[1..] == lines;
  }

  lemma ClosedCons(x: string, rest: string, s: string)
    requires s == x + [NEWLINE] + rest
    ensures Closed(s) == x + [NEWLINE] + Closed(rest)
  {
    if rest != [] {
      assert s[|s| - 1] == rest[|rest| - 1];
      assert s + [NEWLINE] == x + [NEWLINE] + (rest + [NEWLINE]);
    }
  }

  lemma SplitFirst(s: string)
    requires s != []
    ensures LineEnd(s) < |s| ==> s == FirstLine(s) + [NEWLINE] + AfterLine(s)
    ensures LineEnd(s) == |s| ==> FirstLine(s) == s && AfterLine(s) == [] && MidLine(s)
    ensures NEWLINE !in FirstLine(s)
  {
  }

  lemma ClosedFirst(s: string)
    requires s != []
    ensures Closed(s) == FirstLine(s) + [NEWLINE] + Closed(AfterLine(s))
  {
    SplitFirst(s);
    if LineEnd(s) < |s| {
      ClosedCons(FirstLine(s), AfterLine(s), s);
    } else {
      assert s + [NEWLINE] + [] == s + [NEWLINE];
    }
  }

  lemma LinesCons(s: string)
    requires s != []
    ensures Lines(s) == [FirstLine(s)] + Lines(AfterLine(s))
  {
  }

  /** The lines of a text are the text, cut at every newline and at no other place. */
  lemma {:induction false} LinesAre(s: string)
    ensures Ended(Lines(s)) == Closed(s)
    ensures forall i :: 0 <= i < |Lines(s)| ==> NEWLINE !in Lines(s)[i]
    decreases |s|
  {
    if s != [] {
      LinesAre(AfterLine(s));
      SplitFirst(s);
      ClosedFirst(s);
      LinesCons(s);
      EndedCons(FirstLine(s), Lines(AfterLine(s)));
    }
  }

  // ---------------------------------------------------------------------------
  // Any sequence of notifications
  // ---------------------------------------------------------------------------

  function Concat(chunks: seq<string>): (s: string)
    decreases |chunks|
  {
    if chunks == [] then [] else Concat(chunks[..|chunks| - 1]) + chunks[|chunks| - 1]
  }

  /** The lines reported when the file grows by one chunk before each notification. */
  function Emitted(chunks: seq<string>): (r: seq<string>)
    decreases |chunks|
  {
    if chunks == [] then [] else Emitted(chunks[..|chunks| - 1]) + Lines(chunks[|chunks| - 1])
  }

  /** How many notifications found more text after one that had ended inside a line. */
  function CutLines(chunks: seq<string>): (n: nat)
    decreases |chunks|
  {
    if chunks == [] then 0
    else
      var init, last := chunks[..|chunks| - 1], chunks[|chunks| - 1];
      CutLines(init) + (if MidLine(Concat(init)) && last != [] then 1 else 0)
  }

  /** The watcher on a growing file reports exactly Emitted. */
  method Watch(w: Watcher, chunks: seq<string>) returns (lines: seq<string>)
    requires w.pos == 0 && !w.eof && !w.fail
    modifies w
    ensures lines == Emitted(chunks)
    ensures w.pos == |Concat(chunks)| && !w.eof && !w.fail
  {
    lines := [];
    var file: string := [];
    for i := 0 to |chunks|
      invariant file == Concat(chunks[..i]) && lines == Emitted(chunks[..i])
      invariant w.pos == |file| && !w.eof && !w.fail
    {
      assert chunks[..i + 1][..i] == chunks[..i];
      assert (file + chunks[i])[|file|..] == chunks[i];
      file := file + chunks[i];
      var r := w.HandleFileAction(w.filename, Modified, file);
      lines := lines + r.value;
    }
    assert chunks[..|chunks|] == chunks;
  }

  /** Every cut line is reported as one line too many. */
  lemma {:induction false} CutLinesAreExtra(chunks: seq<string>)
    ensures |Emitted(chunks)| == |Lines(Concat(chunks))| + CutLines(chunks)
    decreases |chunks|
  {
    if chunks != [] {
      var init, last := chunks[..|chunks| - 1], chunks[|chunks| - 1];
      CutLinesAreExtra(init);
      LinesOfConcat(Concat(init), last);
    }
  }

  lemma {:induction false} NoCutsSame(chunks: seq<string>)
    requires CutLines(chunks) == 0
    ensures Emitted(chunks) == Lines(Concat(chunks))
    decreases |chunks|
  {
    if chunks != [] {
      var init, last := chunks[..|chunks| - 1], chunks[|chunks| - 1];
      NoCutsSame(init);
      LinesOfConcat(Concat(init), last);
    }
  }

  /** Reading incrementally reports the lines of the file exactly when no notification that was followed
      by more text ended inside a line. */
  lemma IncrementalIffNoCuts(chunks: seq<string>)
    ensures Emitted(chunks) == Lines(Concat(chunks)) <==> CutLines(chunks) == 0
  {
    CutLinesAreExtra(chunks);
    if CutLines(chunks) == 0 {
      NoCutsSame(chunks);
    }
  }

  // ---------------------------------------------------------------------------
  // The last lines
  // ---------------------------------------------------------------------------

  /** How many lines the file holds after the line that was cut last; all of them if none was cut. */
  function LinesSinceCut(chunks: seq<string>): (n: nat)
    decreases |chunks|
  {
    if chunks == [] then 0
    else
      var init, last := chunks[..|chunks| - 1], chunks[|chunks| - 1];
      if MidLine(Concat(init)) && last != [] then |Lines(last)| - 1 else LinesSinceCut(init) + |Lines(last)|
  }

  /** a and b end in the same m lines, and the line before those is shorter in a. */
  ghost predicate AgreeOnLast(a: seq<string>, b: seq<string>, m: nat) {
    m < |a| && m < |b| && a[|a| - m..] == b[|b| - m..] && |a[|a| - m - 1]| < |b[|b| - m - 1]|
  }

  lemma AgreeMore(a: seq<string>, b: seq<string>, more: seq<string>, m: nat, n: nat)
    requires AgreeOnLast(a, b, m) && n == m + |more|
    ensures AgreeOnLast(a + more, b + more, n)
  {
    var x, y := a + more, b + more;
    assert |x| - n == |a| - m && |y| - n == |b| - m;
    assert x[|x| - n..] == a[|a| - m..] + more;
    assert y[|y| - n..] == b[|b| - m..] + more;
    assert x[|x| - n - 1] == a[|a| - m - 1] && y[|y| - n - 1] == b[|b| - m - 1];
  }

  lemma AgreeAfterCut(a: seq<string>, b: seq<string>, more: seq<string>)
    requires b != [] && b[|b| - 1] != [] && more != []
    ensures AgreeOnLast(a + more, Join(b, more, true), |more| - 1)
  {
    var j, m := Join(b, more, true), |more| - 1;
    assert j == b[..|b| - 1] + [b[|b| - 1] + more[0]] + more[1..];
    assert (a + more)[|a + more| - m..] == more[1..];
    assert j[|j| - m..] == more[1..];
    assert (a + more)[|a|] == more[0] && j[|b| - 1] == b[|b| - 1] + more[0];
  }

  /** A text that ends inside a line has a last line, and that line is not empty. */
  lemma {:induction false} LastLineOpen(s: string)
    requires MidLine(s)
    ensures Lines(s)[|Lines(s)| - 1] != []
    decreases |s|
  {
    if LineEnd(s) == |s| {
      WholeLine(s);
    } else {
      var rest := AfterLine(s);
      assert rest != [] && rest[|rest| - 1] == s[|s| - 1];
      LastLineOpen(rest);
      assert Lines(s) == [FirstLine(s)] + Lines(rest);
    }
  }

  lemma CutChunk(a: seq<string>, text: string, last: string)
    requires MidLine(text) && last != []
    ensures AgreeOnLast(a + Lines(last), Lines(text + last), |Lines(last)| - 1)
  {
    LinesOfConcat(text, last);
    LastLineOpen(text);
    AgreeAfterCut(a, Lines(text), Lines(last));
  }

  lemma WholeChunk(a: seq<string>, text: string, last: string, m: nat, n: nat)
    requires AgreeOnLast(a, Lines(text), m) && (!MidLine(text) || last == []) && n == m + |Lines(last)|
    ensures AgreeOnLast(a + Lines(last), Lines(text + last), n)
  {
    LinesOfConcat(text, last);
    AgreeMore(a, Lines(text), Lines(last), m, n);
  }

  /** The reported lines and those of the file agree since the line that was cut last, and not there. */
  lemma {:induction false} SinceCut(chunks: seq<string>)
    requires CutLines(chunks) > 0
    ensures AgreeOnLast(Emitted(chunks), Lines(Concat(chunks)), LinesSinceCut(chunks))
    decreases |chunks|
  {
    var init, last := chunks[..|chunks| - 1], chunks[|chunks| - 1];
    if MidLine(Concat(init)) && last != [] {
      CutChunk(Emitted(init), Concat(init), last);
    } else {
      SinceCut(init);
      WholeChunk(Emitted(init), Concat(init), last, LinesSinceCut(init), LinesSinceCut(chunks));
    }
  }

  lemma LastOfAgreeing(a: seq<string>, b: seq<string>, m: nat, n: nat)
    requires AgreeOnLast(a, b, m)
    ensures Last(a, n) == Last(b, n) <==> n <= m
  {
    if n <= m {
      assert Last(a, n) == a[|a| - m..][m - n..] && Last(b, n) == b[|b| - m..][m - n..];
    } else {
      var x, y := Last(a, n), Last(b, n);
      assert x[|x| - m - 1] == a[|a| - m - 1] && y[|y| - m - 1] == b[|b| - m - 1];
    }
  }

  /** The last n reported lines are the last n lines of the file exactly when no line was cut, or at least n
      lines follow the one that was cut last. */
  lemma LastLinesIff(chunks: seq<string>, n: nat)
    ensures Last(Emitted(chunks), n) == Last(Lines(Concat(chunks)), n)
            <==> CutLines(chunks) == 0 || n <= LinesSinceCut(chunks)
  {
    if CutLines(chunks) == 0 {
      NoCutsSame(chunks);
    } else {
      SinceCut(chunks);
      LastOfAgreeing(Emitted(chunks), Lines(Concat(chunks)), LinesSinceCut(chunks), n);
    }
  }

  /** One line written in two parts is reported as two. */
  lemma SplitLine()
    ensures Emitted(["a", "b\n"]) == ["a", "b"]
    ensures Lines(Concat(["a", "b\n"])) == ["ab"]
  {
    var chunks := ["a", "b\n"];
    assert chunks[..1] == ["a"] && ["a"][..0] == [];
    LineEndIs("a", 1);
    LineEndIs("b\n", 1);
    LineEndIs("ab\n", 2);
    assert Concat(["a"]) == "" + "a" == "a";
    assert Concat(chunks) == "a" + "b\n" == "ab\n";
    assert "a"[..1] == "a" && "b\n"[..1] == "b" && "ab\n"[..2] == "ab";
    assert Lines("a") == ["a"] + Lines("") && Lines("b\n") == ["b"] + Lines("") && Lines("ab\n") == ["ab"] + Lines("");
    assert Emitted(["a"]) == [] + Lines("a");
  }

  /** The log ring fed by the watcher holds the last hundred reported lines. They are those of the file exactly
      when no line was cut, or a hundred whole lines came since. */
  method Tail(w: Watcher, box: LogBox, chunks: seq<string>)
    requires w.pos == 0 && !w.eof && !w.fail && box.ring == []
    modifies w, box
    ensures box.ring == Last(Emitted(chunks), 100)
    ensures box.ring == Last(Lines(Concat(chunks)), 100) <==> CutLines(chunks) == 0 || 100 <= LinesSinceCut(chunks)
  {
    var file: string := [];
    for i := 0 to |chunks|
      invariant file == Concat(chunks[..i])
      invariant w.pos == |file| && !w.eof && !w.fail
      invariant box.ring == Last(Emitted(chunks[..i]), 100)
    {
      assert chunks[..i + 1][..i] == chunks[..i];
      assert (file + chunks[i])[|file|..] == chunks[i];
      file := file + chunks[i];
      var r := w.HandleFileAction(w.filename, Modified, file);
      LastOfLast(Emitted(chunks[..i]), r.value, 100);
      box.OnLogLines(r.value);
    }
    assert chunks[..|chunks|] == chunks;
    LastLinesIff(chunks, 100);
  }

  // ---------------------------------------------------------------------------
  // Every byte once and in order
  // ---------------------------------------------------------------------------

  function Flat(lines: seq<string>): (s: string)
    decreases |lines|
  {
    if lines == [] then [] else lines[0] + Flat(lines[1..])
  }

  function WithoutNewlines(s: string): (r: string)
    decreases |s|
  {
    if s == [] then [] else (if s[0] == NEWLINE then [] else [s[0]]) + WithoutNewlines(s[1..])
  }

  lemma {:induction false} FlatConcat(a: seq<string>, b: seq<string>)
    ensures Flat(a + b) == Flat(a) + Flat(b)
    decreases |a|
  {
    if a == [] {
      assert a + b == b;
    } else {
      assert (a + b)[1..] == a[1..] + b;
      FlatConcat(a[1..], b);
    }
  }

  lemma {:induction false} WithoutNewlinesConcat(a: string, b: string)
    ensures WithoutNewlines(a + b) == WithoutNewlines(a) + WithoutNewlines(b)
    decreases |a|
  {
    if a == [] {
      assert a + b == b;
    } else {
      assert (a + b)[1..] == a[1..] + b;
      WithoutNewlinesConcat(a[1..], b);
    }
  }

  lemma {:induction false} NothingToRemove(s: string)
    requires forall j :: 0 <= j < |s| ==> s[j] != NEWLINE
    ensures WithoutNewlines(s) == s
    decreases |s|
  {
    if s != [] {
      NothingToRemove(s[1..]);
    }
  }

  lemma {:induction false} LinesKeepBytes(s: string)
    ensures Flat(Lines(s)) == WithoutNewlines(s)
    decreases |s|
  {
    if s != [] {
      LinesKeepBytes(AfterLine(s));
      FirstLineKeepsBytes(s);
      assert Lines(s)[1..] == Lines(AfterLine(s));
    }
  }

  lemma FirstLineKeepsBytes(s: string)
    ensures WithoutNewlines(s) == FirstLine(s) + WithoutNewlines(AfterLine(s))
  {
    var k := LineEnd(s);
    var rest := s[k..];
    assert s == s[..k] + rest;
    WithoutNewlinesConcat(s[..k], rest);
    NothingToRemove(s[..k]);
    if k < |s| {
      assert rest[1..] == AfterLine(s);
    }
  }

  /** However the file is cut, the reported lines are the bytes read, without the newlines, in order. */
  lemma {:induction false} BytesConserved(chunks: seq<string>)
    ensures Flat(Emitted(chunks)) == WithoutNewlines(Concat(chunks))
    decreases |chunks|
  {
    if chunks != [] {
      var init, last := chunks[..|chunks| - 1], chunks[|chunks| - 1];
      BytesConserved(init);
      LinesKeepBytes(last);
      FlatConcat(Emitted(init), Lines(last));
      WithoutNewlinesConcat(Concat(init), last);
    }
  }
}
