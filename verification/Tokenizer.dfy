/**
 * Splitting a saved rule line into arguments, as the restore programs do it.
 *
 * The IPv4 program copies each argument, character by character, into a buffer; the IPv6 program remembers where
 * the argument starts in the line. Both let a double quote hide blanks, and treat the closing quote as a blank.
 * Only the first understands a quote escaped by a backslash.
 */
module Tokenizer {
  import opened Sequences

  const BUFFER_SIZE := 1024
  const ARGV_SIZE := 255

  /** How the line ended: read to its end, an argument refused as too long, or a write beyond the buffer. */
  datatype End = Done | TooLong | Overrun

  datatype Lexed = Lexed(words: seq<string>, end: End)

  function Cons(w: string, l: Lexed): Lexed {
    Lexed([w] + l.words, l.end)
  }

  predicate Blank(c: char) {
    c == ' ' || c == '\t' || c == '\n'
  }

  /** The character before position `i` is a backslash. */
  predicate Escaped(line: string, i: nat)
    requires i <= |line|
  {
    i > 0 && line[i - 1] == '\\'
  }

  predicate QuoteAt(line: string, i: nat) {
    i < |line| && line[i] == '"'
  }

  // ----- The buffered tokenizer -----

  /** The arguments in the line from `i` on, `buf` being the current one so far, inside a quote when `open`. */
  function Lex(line: string, i: nat, open: bool, buf: string): Lexed
    decreases |line| - i
  {
    if i >= |line| then Lexed([], Done)
    else
      var c := line[i];
      if c == '"' && !open then Lex(line, i + 1, true, buf)
      else if (c == '"' && !Escaped(line, i)) || (Blank(c) && !open) then
        if buf == [] then Lex(line, i + 1, false, [])
        else if |buf| >= BUFFER_SIZE then Lexed([], Overrun)
        else Cons(buf, Lex(line, i + 1, false, []))
      else if open && c == '\\' && QuoteAt(line, i + 1) then Lex(line, i + 1, true, buf)
      else if |buf| >= BUFFER_SIZE then Lexed([], Overrun)
      else if !Blank(c) && |buf| + 1 >= BUFFER_SIZE then Lexed([], TooLong)
      else Lex(line, i + 1, open, buf + [c])
  }

  // ----- The pointer tokenizer -----

  /** The same, the current argument starting at `start`. */
  function Cut(line: string, i: nat, open: bool, start: nat): Lexed
    requires start <= i
    decreases |line| - i
  {
    if i >= |line| then Lexed([], Done)
    else
      var c := line[i];
      if c == '"' && (!open || Escaped(line, i)) then Cut(line, i + 1, true, start + 1)
      else if c == '"' || (Blank(c) && !open) then
        if start == i then Cut(line, i + 1, false, i + 1)
        else if i - start >= BUFFER_SIZE then Lexed([], Overrun)
        else Cons(line[start..i], Cut(line, i + 1, false, i + 1))
      else Cut(line, i + 1, open, start)
  }

  // ----- The argument list -----

  datatype Result = Args(args: seq<string>) | TableOption | Refused(end: End)

  /** `add_argv`: an argument that no longer fits the table is dropped. */
  function Add(args: seq<string>, w: string): seq<string> {
    if |args| + 1 < ARGV_SIZE then args + [w] else args
  }

  predicate NamesTable(w: string) {
    w == "-t" || w == "--table"
  }

  function Judge(args: seq<string>, l: Lexed): Result
    decreases |l.words|
  {
    if l.words == [] then (if l.end.Done? then Args(args) else Refused(l.end))
    else if NamesTable(l.words[0]) then TableOption
    else Judge(Add(args, l.words[0]), Lexed(l.words[1..], l.end))
  }

  lemma JudgeCons(args: seq<string>, w: string, l: Lexed)
    ensures Judge(args, Cons(w, l)) == if NamesTable(w) then TableOption else Judge(Add(args, w), l)
  {
    assert Cons(w, l).words[1..] == l.words;
  }

  /** The IPv4 program's loop over one line; it overwrites closing quotes with blanks as it goes. */
  method Tokenize(line: array<char>, first: seq<string>) returns (r: Result)
    modifies line
    ensures r == Judge(first, Lex(old(line[..]), 0, false, []))
  {
    ghost var text := line[..];
    var param := new char[BUFFER_SIZE];
    var argv, open, len := first, false, 0;
    var i := 0;
    while i < line.Length
      invariant 0 <= i <= line.Length && 0 <= len <= BUFFER_SIZE
      invariant forall j :: i <= j < line.Length ==> line[j] == text[j]
      invariant i > 0 ==> (line[i - 1] == '\\' <==> text[i - 1] == '\\')
      invariant open ==> i > 0
      invariant Judge(argv, Lex(text, i, open, param[..len])) == Judge(first, Lex(text, 0, false, []))
    {
      ghost var buf := param[..len];
      var c := line[i];
      if c == '"' {
        if open && line[i - 1] != '\\' {
          open := false;
          line[i] := ' ';
          c := ' ';
        } else if !open {
          open := true;
          i := i + 1;
          continue;
        }
      }
      if Blank(c) {
        if open {
          if len >= BUFFER_SIZE {
            return Refused(Overrun);
          }
          param[len] := c;
          len := len + 1;
          assert param[..len] == buf + [c];
          i := i + 1;
          continue;
        }
        if len == 0 {
          i := i + 1;
          continue;
        }
        if len >= BUFFER_SIZE {
          return Refused(Overrun);
        }
        JudgeCons(argv, buf, Lex(text, i + 1, false, []));
        if NamesTable(param[..len]) {
          return TableOption;
        }
        argv := Add(argv, param[..len]);
        len := 0;
      } else if open && c == '\\' && i + 1 < line.Length && line[i + 1] == '"' {
      } else {
        if len >= BUFFER_SIZE {
          return Refused(Overrun);
        }
        param[len] := c;
        len := len + 1;
        assert param[..len] == buf + [c];
        if len >= BUFFER_SIZE {
          return Refused(TooLong);
        }
      }
      i := i + 1;
    }
    r := Args(argv);
  }

  /** The IPv6 program's loop over one line. */
  method TokenizeByPointer(line: array<char>, first: seq<string>) returns (r: Result)
    modifies line
    ensures r == Judge(first, Cut(old(line[..]), 0, false, 0))
  {
    ghost var text := line[..];
    var argv, open, start := first, false, 0;
    var i := 0;
    while i < line.Length
      invariant 0 <= start <= i <= line.Length
      invariant forall j :: start <= j < line.Length ==> line[j] == text[j]
      invariant i > 0 ==> (line[i - 1] == '\\' <==> text[i - 1] == '\\')
      invariant open ==> i > 0
      invariant Judge(argv, Cut(text, i, open, start)) == Judge(first, Cut(text, 0, false, 0))
    {
      var c := line[i];
      if c == '"' {
        if open && line[i - 1] != '\\' {
          open := false;
          line[i] := ' ';
          c := ' ';
        } else {
          open := true;
          start := start + 1;
        }
      }
      if Blank(c) && !open {
        var len := i - start;
        if len == 0 {
          start := start + 1;
        } else if len >= BUFFER_SIZE {
          return Refused(Overrun);
        } else {
          var word := line[start..i];
          assert word == text[start..i] by {
            assert forall j :: 0 <= j < |word| ==> word[j] == line[start + j];
          }
          JudgeCons(argv, word, Cut(text, i + 1, false, i + 1));
          if NamesTable(word) {
            return TableOption;
          }
          argv := Add(argv, word);
          start := start + len + 1;
        }
      }
      i := i + 1;
    }
    r := Args(argv);
  }

  // ----- When the two tokenizers agree -----

  /**
   * What a reader of the line can tell of the argument being read, of which `len` characters are kept: whether these
   * are all backslashes, how many came before its quote, whether a quote in it was escaped, and whether both
   * tokenizers hold the same text.
   */
  datatype Word = Word(len: nat, slashes: bool, late: nat, escaped: bool, same: bool)

  const NoWord := Word(0, true, 0, false, true)

  /** The word after a quote in it was escaped. */
  function Escapes(w: Word): Word {
    Word(w.len + 1, false, w.late, true, !w.escaped && w.slashes && w.late <= 1)
  }

  /**
   * Every argument that is finished is the same for both tokenizers. A quote that opens late spoils an argument, and
   * so does an escaped quote; but a single escaped quote sets it right, or leaves it right, when only backslashes
   * were kept before it and its opening quote came after at most one of them.
   */
  predicate WordsAgree(line: string, i: nat, open: bool, w: Word)
    decreases |line| - i
  {
    i >= |line|
    || if line[i] == '"' && !open then WordsAgree(line, i + 1, true, w.(late := w.len, same := w.len == 0))
       else if line[i] == '"' || (Blank(line[i]) && !open) then
         (w.len > 0 ==> w.same) && WordsAgree(line, i + 1, false, NoWord)
       else if open && line[i] == '\\' && QuoteAt(line, i + 1) then
         WordsAgree(line, i + 2, true, Escapes(w))
       else WordsAgree(line, i + 1, open, w.(len := w.len + 1, slashes := w.slashes && line[i] == '\\'))
  }

  lemma ConsSame(w: string, a: Lexed, b: Lexed)
    ensures Cons(w, a) == Cons(w, b) <==> a == b
  {
    assert Cons(w, a).words[1..] == a.words && Cons(w, b).words[1..] == b.words;
  }

  lemma ConsDiffers(v: string, w: string, a: Lexed, b: Lexed)
    requires v != w
    ensures Cons(v, a) != Cons(w, b)
  {
    assert Cons(v, a).words[0] == v && Cons(w, b).words[0] == w;
  }

  predicate Slashes(s: string) {
    forall k :: 0 <= k < |s| ==> s[k] == '\\'
  }

  /** Both hold equally many characters; the text of the second, from `start` on, tells what was dropped. */
  ghost predicate Alike(line: string, i: nat, buf: string, start: nat, late: nat, escaped: bool, b: nat) {
    && start <= i <= |line| && |buf| == i - start && late <= |buf|
    && if escaped then EscapedAlike(line, i, buf, start, b)
       else
         '"' !in buf
         && if late == 0 then buf == line[start..i]
            else start > 0 && line[start - 1..i] == buf[..late] + ['"'] + buf[late..]
  }

  /** Since the last escaped quote, kept at `b`, nothing was dropped. */
  ghost predicate EscapedAlike(line: string, i: nat, buf: string, start: nat, b: nat)
    requires start <= i <= |line| && |buf| == i - start
  {
    b < |buf| && buf[b] == '"' && buf[b..] == line[start + b..i]
  }

  /** The shape of the word tells whether the two texts are the same. */
  ghost predicate Tells(w: Word, line: string, i: nat, buf: string, start: nat, b: nat) {
    && Alike(line, i, buf, start, w.late, w.escaped, b)
    && w.len == |buf| && (w.slashes <==> Slashes(buf)) && (w.same <==> buf == line[start..i])
  }

  lemma KeptMore(w: Word, line: string, i: nat, buf: string, start: nat, b: nat)
    requires Tells(w, line, i, buf, start, b) && i < |line| && (line[i] != '"')
    ensures Tells(w.(len := w.len + 1, slashes := w.slashes && line[i] == '\\'), line, i + 1, buf + [line[i]], start, b)
  {
    var c := line[i];
    assert line[start..i + 1] == line[start..i] + [c];
    assert (buf + [c])[..|buf|] == buf && line[start..i + 1][..|buf|] == line[start..i];
    if w.escaped {
      assert (buf + [c])[b..] == buf[b..] + [c] && line[start + b..i + 1] == line[start + b..i] + [c];
    } else if w.late > 0 {
      assert line[start - 1..i + 1] == line[start - 1..i] + [c];
      assert (buf + [c])[w.late..] == buf[w.late..] + [c] && (buf + [c])[..w.late] == buf[..w.late];
    }
    assert Slashes(buf + [c]) <==> Slashes(buf) && c == '\\';
  }

  lemma QuoteOpens(w: Word, line: string, i: nat, buf: string, start: nat, b: nat)
    requires Tells(w, line, i, buf, start, b) && QuoteAt(line, i) && w.late == 0 && !w.escaped
    ensures Tells(w.(late := w.len, same := w.len == 0), line, i + 1, buf, start + 1, b)
  {
    assert line[start..i + 1] == buf + ['"'];
    assert buf[..|buf|] == buf && buf[|buf|..] == [];
    if buf != [] {
      assert line[start + 1..i + 1] == line[start..i + 1][1..];
      assert line[start + 1..i + 1][|buf| - 1] == '"';
    }
  }

  lemma ShiftOne(c: string)
    ensures c + ['"'] == (c + ['\\', '"'])[1..] <==> Slashes(c)
  {
    var r := (c + ['\\', '"'])[1..];
    assert |r| == |c| + 1 && forall k :: 0 <= k < |c| ==> r[k] == (c + ['\\'])[k + 1];
    if c + ['"'] == r {
      forall j | 0 <= j < |c| ensures c[j] == (c + ['\\'])[j + 1] {
        assert (c + ['"'])[j] == r[j];
      }
      SlashesBack(c, |c|);
    }
  }

  lemma {:induction false} SlashesBack(c: string, k: nat)
    requires k <= |c| && forall j :: 0 <= j < |c| ==> c[j] == (c + ['\\'])[j + 1]
    ensures forall j :: |c| - k <= j < |c| ==> c[j] == '\\'
  {
    if k > 0 {
      SlashesBack(c, k - 1);
    }
  }
  /** The same when a quote was dropped after `late` characters. */
  lemma ShiftTwo(buf: string, late: nat)
    requires 0 < late <= |buf| && '"' !in buf
    ensures buf + ['"'] == (buf[..late] + ['"'] + buf[late..] + ['\\', '"'])[2..] <==> Slashes(buf) && late == 1
  {
    var raw := buf[..late] + ['"'] + buf[late..] + ['\\', '"'];
    if late == 1 {
      assert raw[2..] == buf[1..] + ['\\', '"'];
      assert buf[1..] + ['\\', '"'] == (buf + ['\\', '"'])[1..];
      ShiftOne(buf);
    } else {
      assert raw[late] == '"' && raw[2..][late - 2] == '"' && (buf + ['"'])[late - 2] == buf[late - 2];
      assert buf[late - 2] in buf;
    }
  }

  /** A second escaped quote always makes a difference: between the two, every character would equal the next. */
  lemma SecondEscape(line: string, i: nat, buf: string, start: nat, b: nat)
    requires start <= i && i + 2 <= |line| && |buf| == i - start && EscapedAlike(line, i, buf, start, b)
    requires line[i] == '\\' && line[i + 1] == '"'
    ensures buf + ['"'] != line[start + 1..i + 2]
  {
    if buf + ['"'] == line[start + 1..i + 2] {
      forall j | start + b <= j < i ensures line[j] == line[j + 1] {
        assert buf[b..][j - start - b] == line[start + b..i][j - start - b];
        assert (buf + ['"'])[j - start] == line[start + 1..i + 2][j - start];
      }
      assert line[start + b] == buf[b..][0];
      SameAlong(line, start + b, i);
    }
  }

  lemma {:induction false} SameAlong(line: string, a: nat, b: nat)
    requires a <= b < |line| && forall k :: a <= k < b ==> line[k] == line[k + 1]
    ensures line[a] == line[b]
    decreases b - a
  {
    if a < b {
      SameAlong(line, a + 1, b);
    }
  }

  lemma QuoteKept(line: string, i: nat, buf: string)
    requires i + 2 <= |line| && line[i + 1] == '"'
    ensures
      var buf' := buf + ['"'];
      buf'[|buf|..] == ['"'] && line[i + 1..i + 2] == ['"'] && buf'[|buf|] == '"'
  {
    assert line[i + 1..i + 2][0] == line[i + 1];
  }

  lemma FirstEscape(line: string, i: nat, buf: string, start: nat)
    requires start <= i && i + 2 <= |line| && buf == line[start..i] && line[i] == '\\' && line[i + 1] == '"'
    ensures buf + ['"'] == line[start + 1..i + 2] <==> Slashes(buf)
  {
    assert line[start..i + 2] == buf + ['\\', '"'];
    assert line[start + 1..i + 2] == line[start..i + 2][1..];
    ShiftOne(buf);
  }

  lemma LateEscape(line: string, i: nat, buf: string, start: nat, late: nat)
    requires 0 < start <= i && i + 2 <= |line| && line[i] == '\\' && line[i + 1] == '"'
    requires 0 < late <= |buf| && '"' !in buf && line[start - 1..i] == buf[..late] + ['"'] + buf[late..]
    ensures buf + ['"'] == line[start + 1..i + 2] <==> Slashes(buf) && late == 1
  {
    assert line[start - 1..i + 2] == buf[..late] + ['"'] + buf[late..] + ['\\', '"'];
    assert line[start + 1..i + 2] == line[start - 1..i + 2][2..];
    ShiftTwo(buf, late);
  }

  lemma QuoteEscaped(w: Word, line: string, i: nat, buf: string, start: nat, b: nat)
    requires Tells(w, line, i, buf, start, b) && i + 2 <= |line| && line[i] == '\\' && line[i + 1] == '"'
    ensures Tells(Escapes(w), line, i + 2, buf + ['"'], start + 1, |buf|)
  {
    var buf' := buf + ['"'];
    assert EscapedAlike(line, i + 2, buf', start + 1, |buf|) && !Slashes(buf') by {
      QuoteKept(line, i, buf);
    }
    assert buf' == line[start + 1..i + 2] <==> !w.escaped && w.slashes && w.late <= 1 by {
      if w.escaped {
        SecondEscape(line, i, buf, start, b);
      } else if w.late == 0 {
        FirstEscape(line, i, buf, start);
      } else {
        LateEscape(line, i, buf, start, w.late);
      }
    }
  }

  lemma EscapeSteps(line: string, i: nat, buf: string, start: nat)
    requires start <= i && i + 2 <= |line| && line[i] == '\\' && line[i + 1] == '"'
    requires Lex(line, i, true, buf).end.Done?
    ensures Lex(line, i, true, buf) == Lex(line, i + 2, true, buf + ['"'])
    ensures Cut(line, i, true, start) == Cut(line, i + 2, true, start + 1)
  {
    assert Escaped(line, i + 1);
    assert Lex(line, i, true, buf) == Lex(line, i + 1, true, buf);
    assert Cut(line, i, true, start) == Cut(line, i + 1, true, start);
  }

  lemma WordEnds(line: string, i: nat, open: bool, buf: string, start: nat)
    requires start <= i < |line| && |buf| == i - start && Lex(line, i, open, buf).end.Done?
    requires (open && line[i] == '"' && !Escaped(line, i)) || (Blank(line[i]) && !open)
    ensures Lex(line, i, open, buf) == Cut(line, i, open, start)
       <==> (buf != [] ==> buf == line[start..i]) && Lex(line, i + 1, false, []) == Cut(line, i + 1, false, i + 1)
    ensures Lex(line, i + 1, false, []).end.Done?
  {
    if buf != [] {
      if buf == line[start..i] {
        ConsSame(buf, Lex(line, i + 1, false, []), Cut(line, i + 1, false, i + 1));
      } else {
        ConsDiffers(buf, line[start..i], Lex(line, i + 1, false, []), Cut(line, i + 1, false, i + 1));
      }
    }
  }

  /** The two tokenizers agree from `i` on exactly when the words do. */
  ghost predicate AgreesAt(line: string, i: nat, open: bool, buf: string, start: nat, w: Word) {
    start <= i && (Lex(line, i, open, buf) == Cut(line, i, open, start) <==> WordsAgree(line, i, open, w))
  }

  /** A quote opens. */
  lemma OpenAgrees(line: string, i: nat, buf: string, start: nat, w: Word)
    requires start <= i && QuoteAt(line, i)
    requires AgreesAt(line, i + 1, true, buf, start + 1, w.(late := w.len, same := w.len == 0))
    ensures AgreesAt(line, i, false, buf, start, w)
  {
  }

  /** An argument ends. */
  lemma EndAgrees(line: string, i: nat, open: bool, buf: string, start: nat, w: Word)
    requires start <= i < |line| && |buf| == i - start == w.len && Lex(line, i, open, buf).end.Done?
    requires (open && line[i] == '"' && !Escaped(line, i)) || (Blank(line[i]) && !open)
    requires w.same <==> buf == line[start..i]
    requires AgreesAt(line, i + 1, false, [], i + 1, NoWord)
    ensures AgreesAt(line, i, open, buf, start, w)
  {
    WordEnds(line, i, open, buf, start);
  }

  /** A quote is escaped. */
  lemma EscapeAgrees(line: string, i: nat, buf: string, start: nat, w: Word)
    requires start <= i && i + 2 <= |line| && line[i] == '\\' && line[i + 1] == '"'
    requires Lex(line, i, true, buf).end.Done?
    requires AgreesAt(line, i + 2, true, buf + ['"'], start + 1, Escapes(w))
    ensures AgreesAt(line, i, true, buf, start, w)
  {
    EscapeSteps(line, i, buf, start);
  }

  /** Any other character, or a blank inside a quote. */
  lemma KeepAgrees(line: string, i: nat, open: bool, buf: string, start: nat, w: Word)
    requires start <= i < |line| && line[i] != '"' && !(Blank(line[i]) && !open)
    requires !(open && line[i] == '\\' && QuoteAt(line, i + 1)) && Lex(line, i, open, buf).end.Done?
    requires AgreesAt(line, i + 1, open, buf + [line[i]], start,
                      w.(len := w.len + 1, slashes := w.slashes && line[i] == '\\'))
    ensures AgreesAt(line, i, open, buf, start, w)
  {
  }

  lemma KeepDone(line: string, i: nat, open: bool, buf: string)
    requires i < |line| && line[i] != '"' && !(Blank(line[i]) && !open)
    requires !(open && line[i] == '\\' && QuoteAt(line, i + 1)) && Lex(line, i, open, buf).end.Done?
    ensures Lex(line, i + 1, open, buf + [line[i]]).end.Done?
  {
  }

  lemma {:induction false} AgreeFrom(line: string, i: nat, open: bool, buf: string, start: nat, w: Word, b: nat)
    requires Tells(w, line, i, buf, start, b) && (!open ==> w.late == 0 && !w.escaped)
    requires !(open && QuoteAt(line, i) && Escaped(line, i)) && Lex(line, i, open, buf).end.Done?
    ensures AgreesAt(line, i, open, buf, start, w)
    decreases |line| - i, 1
  {
    if i < |line| {
      if line[i] == '"' && !open {
        QuoteOpens(w, line, i, buf, start, b);
        AgreeFrom(line, i + 1, true, buf, start + 1, w.(late := w.len, same := w.len == 0), b);
        OpenAgrees(line, i, buf, start, w);
      } else if line[i] == '"' || (Blank(line[i]) && !open) {
        WordEnds(line, i, open, buf, start);
        AgreeFrom(line, i + 1, false, [], i + 1, NoWord, 0);
        EndAgrees(line, i, open, buf, start, w);
      } else if open && line[i] == '\\' && QuoteAt(line, i + 1) {
        AgreeEscaped(line, i, buf, start, w, b);
      } else {
        AgreeKept(line, i, open, buf, start, w, b);
      }
    }
  }

  lemma {:induction false} AgreeEscaped(line: string, i: nat, buf: string, start: nat, w: Word, b: nat)
    requires Tells(w, line, i, buf, start, b) && Lex(line, i, true, buf).end.Done?
    requires i + 2 <= |line| && line[i] == '\\' && line[i + 1] == '"'
    ensures AgreesAt(line, i, true, buf, start, w)
    decreases |line| - i, 0
  {
    assert Lex(line, i + 2, true, buf + ['"']).end.Done? by { EscapeSteps(line, i, buf, start); }
    QuoteEscaped(w, line, i, buf, start, b);
    assert !Escaped(line, i + 2);
    AgreeFrom(line, i + 2, true, buf + ['"'], start + 1, Escapes(w), |buf|);
    EscapeAgrees(line, i, buf, start, w);
  }

  lemma {:induction false} AgreeKept(line: string, i: nat, open: bool, buf: string, start: nat, w: Word, b: nat)
    requires Tells(w, line, i, buf, start, b) && (!open ==> w.late == 0 && !w.escaped)
    requires i < |line| && line[i] != '"' && !(Blank(line[i]) && !open)
    requires !(open && line[i] == '\\' && QuoteAt(line, i + 1)) && Lex(line, i, open, buf).end.Done?
    ensures AgreesAt(line, i, open, buf, start, w)
    decreases |line| - i, 0
  {
    var w' := w.(len := w.len + 1, slashes := w.slashes && line[i] == '\\');
    KeptMore(w, line, i, buf, start, b);
    assert Lex(line, i + 1, open, buf + [line[i]]).end.Done? by { KeepDone(line, i, open, buf); }
    AgreeFrom(line, i + 1, open, buf + [line[i]], start, w', b);
    KeepAgrees(line, i, open, buf, start, w);
  }

  /** On every line with no over-long argument, the two tokenizers agree exactly when every finished argument does. */
  lemma TokenizersAgree(line: string)
    requires Lex(line, 0, false, []).end.Done?
    ensures Lex(line, 0, false, []) == Cut(line, 0, false, 0) <==> WordsAgree(line, 0, false, NoWord)
  {
    AgreeFrom(line, 0, false, [], 0, NoWord, 0);
  }

  // ----- Quoting -----

  predicate Bare(w: string) {
    forall c :: c in w ==> !Blank(c) && c != '"'
  }

  function Escape(w: string): string {
    if w == [] then [] else (if w[0] == '"' then ['\\', '"'] else [w[0]]) + Escape(w[1..])
  }

  function Quote(w: string): string {
    if Bare(w) then w else ['"'] + Escape(w) + ['"']
  }

  function Print(ws: seq<string>): string {
    if ws == [] then [] else Quote(ws[0]) + [' '] + Print(ws[1..])
  }

  predicate Ends(w: string) {
    w != [] && w[|w| - 1] == '\\'
  }

  lemma {:induction false} BareRun(line: string, i: nat, w: string, buf: string)
    requires Stands(line, i, w) && Bare(w) && |buf| + |w| < BUFFER_SIZE
    ensures Lex(line, i, false, buf) == Lex(line, i + |w|, false, buf + w)
    decreases |w|
  {
    if w == [] {
      assert buf + w == buf;
    } else {
      assert line[i..i + |w|][0] == w[0];
      assert line[i + 1..i + |w|] == w[1..];
      BareRun(line, i + 1, w[1..], buf + [w[0]]);
      assert buf + [w[0]] + w[1..] == buf + w;
    }
  }

  /** Inside a quote the escaped text is read back, if the backslash it may end in is not taken for an escape. */
  lemma {:induction false} EscapedRun(line: string, i: nat, w: string, buf: string)
    requires Stands(line, i, Escape(w)) && |buf| + |w| < BUFFER_SIZE
    requires Ends(w) ==> !QuoteAt(line, i + |Escape(w)|)
    ensures Lex(line, i, true, buf) == Lex(line, i + |Escape(w)|, true, buf + w)
    decreases |w|
  {
    if w == [] {
      assert buf + w == buf;
    } else {
      var e := Escape(w);
      var n := if w[0] == '"' then 2 else 1;
      assert e[n..] == Escape(w[1..]);
      assert line[i..i + |e|][0] == e[0];
      assert line[i + n..i + |e|] == line[i..i + |e|][n..];
      assert buf + [w[0]] + w[1..] == buf + w;
      EscapedRun(line, i + n, w[1..], buf + [w[0]]);
      if w[0] == '"' {
        assert line[i..i + |e|][1] == e[1];
      } else if w[0] == '\\' {
        assert |w| > 1 ==> line[i..i + |e|][1] == e[1];
      }
    }
  }

  lemma {:induction false} EscapeSnoc(v: string, c: char)
    requires c != '"'
    ensures Escape(v + [c]) == Escape(v) + [c]
  {
    if v == [] {
      assert v + [c] == [c] && Escape([c]) == [c] + Escape([]);
    } else {
      EscapeSnoc(v[1..], c);
      assert (v + [c])[1..] == v[1..] + [c];
    }
  }

  lemma {:induction false} EscapeLast(w: string)
    requires w != []
    ensures Escape(w) != [] && Escape(w)[|Escape(w)| - 1] == w[|w| - 1]
  {
    if |w| == 1 {
      assert Escape(w[1..]) == [];
    } else {
      EscapeLast(w[1..]);
    }
  }

  lemma {:induction false} WordGrows(line: string, i: nat, open: bool, buf: string)
    ensures
      var words := Lex(line, i, open, buf).words;
      words != [] ==> buf <= words[0]
    decreases |line| - i
  {
    if i < |line| {
      if line[i] == '"' && !open {
        WordGrows(line, i + 1, true, buf);
      } else if open && line[i] == '\\' && QuoteAt(line, i + 1) {
        WordGrows(line, i + 1, true, buf);
      } else {
        WordGrows(line, i + 1, open, buf + [line[i]]);
      }
    }
  }

  lemma BareRead(line: string, i: nat, w: string)
    requires 0 < |w| < BUFFER_SIZE && Bare(w) && Stands(line, i, w + [' '])
    ensures Lex(line, i, false, []) == Cons(w, Lex(line, i + |w| + 1, false, []))
  {
    assert line[i..i + |w|] == line[i..i + |w| + 1][..|w|] == w;
    assert line[i + |w|] == line[i..i + |w| + 1][|w|];
    BareRun(line, i, w, []);
    assert [] + w == w;
  }

  lemma QuotedStands(line: string, i: nat, e: string)
    requires Stands(line, i, ['"'] + e + ['"'] + [' '])
    ensures line[i] == '"' && Stands(line, i + 1, e) && line[i + 1 + |e|] == '"' && line[i + 2 + |e|] == ' '
    ensures forall k :: 0 <= k < |e| ==> line[i + 1 + k] == e[k]
  {
    var q := ['"'] + e + ['"'] + [' '];
    assert forall k :: 0 <= k < |q| ==> line[i + k] == line[i..i + |q|][k] == q[k];
    assert forall k :: 0 <= k < |e| ==> q[1 + k] == e[k];
  }

  lemma QuotedRead(line: string, i: nat, w: string)
    requires 0 < |w| < BUFFER_SIZE && !Ends(w) && Stands(line, i, ['"'] + Escape(w) + ['"'] + [' '])
    ensures Lex(line, i, false, []) == Cons(w, Lex(line, i + |Escape(w)| + 3, false, []))
  {
    QuotedStands(line, i, Escape(w));
    EscapedRun(line, i + 1, w, []);
    EscapeLast(w);
    assert [] + w == w;
  }

  /** A final backslash and the closing quote after it are read as a quote inside the argument. */
  lemma QuoteSwallowed(line: string, i: nat, v: string)
    requires |v| + 1 < BUFFER_SIZE && Stands(line, i, ['"'] + (Escape(v) + ['\\']) + ['"'] + [' '])
    ensures Lex(line, i, false, []) == Lex(line, i + |Escape(v)| + 3, true, v + ['"'])
  {
    var e := Escape(v) + ['\\'];
    QuotedStands(line, i, e);
    var j := i + 1 + |Escape(v)|;
    assert line[i + 1..j] == line[i + 1..j + 1][..|Escape(v)|] == Escape(v);
    assert line[j] == e[|Escape(v)|];
    EscapedRun(line, i + 1, v, []);
    assert [] + v == v;
  }

  lemma OtherWord(v: string, l: Lexed, rest: Lexed)
    requires l.words != [] ==> v + ['"'] <= l.words[0]
    ensures l != Cons(v + ['\\'], rest)
  {
    assert (v + ['"'])[|v|] == '"' && (v + ['\\'])[|v|] == '\\';
    assert Cons(v + ['\\'], rest).words[0] == v + ['\\'];
  }

  lemma QuotedMisread(line: string, i: nat, w: string, rest: Lexed)
    requires |w| < BUFFER_SIZE && Ends(w) && Stands(line, i, ['"'] + Escape(w) + ['"'] + [' '])
    ensures Lex(line, i, false, []) != Cons(w, rest)
  {
    var v := w[..|w| - 1];
    assert w == v + ['\\'];
    var j := i + |Escape(v)| + 3;
    assert Lex(line, i, false, []) == Lex(line, j, true, v + ['"']) by {
      EscapeSnoc(v, '\\');
      QuoteSwallowed(line, i, v);
    }
    WordGrows(line, j, true, v + ['"']);
    OtherWord(v, Lex(line, j, true, v + ['"']), rest);
  }

  lemma OneRead(line: string, i: nat, w: string, rest: Lexed)
    requires 0 < |w| < BUFFER_SIZE && Stands(line, i, Quote(w) + [' '])
    ensures Survives(w) ==> Lex(line, i, false, []) == Cons(w, Lex(line, i + |Quote(w)| + 1, false, []))
    ensures !Survives(w) ==> Lex(line, i, false, []) != Cons(w, rest)
  {
    if Bare(w) {
      BareRead(line, i, w);
    } else if Ends(w) {
      QuotedMisread(line, i, w, rest);
    } else {
      QuotedRead(line, i, w);
    }
  }

  predicate Fits(ws: seq<string>) {
    forall k :: 0 <= k < |ws| ==> 0 < |ws[k]| < BUFFER_SIZE
  }

  /** The argument survives quoting: it needs no quotes, or does not end in a backslash. */
  predicate Survives(w: string) {
    Bare(w) || !Ends(w)
  }

  predicate AllSurvive(ws: seq<string>) {
    ws != [] ==> Survives(ws[0]) && AllSurvive(ws[1..])
  }

  lemma {:induction false} AllSurviveAt(ws: seq<string>)
    ensures AllSurvive(ws) <==> forall k :: 0 <= k < |ws| ==> Survives(ws[k])
  {
    if ws != [] {
      AllSurviveAt(ws[1..]);
      assert forall k :: 0 < k < |ws| ==> ws[k] == ws[1..][k - 1];
    }
  }

  lemma PrintSplit(line: string, i: nat, ws: seq<string>)
    requires ws != [] && i <= |line| && line[i..] == Print(ws)
    ensures
      var q := Quote(ws[0]) + [' '];
      Stands(line, i, q) && line[i + |q|..] == Print(ws[1..])
  {
    var q := Quote(ws[0]) + [' '];
    assert line[i..] == q + Print(ws[1..]);
    assert line[i..i + |q|] == line[i..][..|q|] && line[i + |q|..] == line[i..][|q|..];
  }

  lemma OneMore(line: string, i: nat, w: string, rest: seq<string>)
    requires 0 < |w| < BUFFER_SIZE && Stands(line, i, Quote(w) + [' '])
    ensures
      Lex(line, i, false, []) == Cons(w, Lexed(rest, Done))
      <==> Survives(w) && Lex(line, i + |Quote(w)| + 1, false, []) == Lexed(rest, Done)
  {
    OneRead(line, i, w, Lexed(rest, Done));
    if Survives(w) {
      ConsSame(w, Lex(line, i + |Quote(w)| + 1, false, []), Lexed(rest, Done));
    }
  }

  lemma {:induction false} RoundTripFrom(line: string, i: nat, ws: seq<string>)
    requires i <= |line| && line[i..] == Print(ws) && Fits(ws)
    ensures Lex(line, i, false, []) == Lexed(ws, Done) <==> AllSurvive(ws)
    decreases |ws|
  {
    if ws != [] {
      var w, rest := ws[0], ws[1..];
      var j := i + |Quote(w)| + 1;
      assert Stands(line, i, Quote(w) + [' ']) && line[j..] == Print(rest) by { PrintSplit(line, i, ws); }
      assert Cons(w, Lexed(rest, Done)) == Lexed(ws, Done) by { assert [w] + rest == ws; }
      OneMore(line, i, w, rest);
      RoundTripFrom(line, j, rest);
    }
  }

  /** Quoted and split again, a list of arguments comes back exactly when each of them survives quoting. */
  lemma RoundTrip(ws: seq<string>)
    requires Fits(ws)
    ensures Lex(Print(ws), 0, false, []) == Lexed(ws, Done) <==> forall k :: 0 <= k < |ws| ==> Survives(ws[k])
  {
    assert Print(ws)[0..] == Print(ws);
    RoundTripFrom(Print(ws), 0, ws);
    AllSurviveAt(ws);
  }

  lemma {:induction false} JudgeAll(first: seq<string>, ws: seq<string>)
    requires |first| + |ws| < ARGV_SIZE && forall k :: 0 <= k < |ws| ==> !NamesTable(ws[k])
    ensures Judge(first, Lexed(ws, Done)) == Args(first + ws)
    decreases |ws|
  {
    if ws == [] {
      assert first + ws == first;
    } else {
      JudgeAll(first + [ws[0]], ws[1..]);
      assert first + [ws[0]] + ws[1..] == first + ws;
    }
  }

  /** The whole argument list handed on: the fixed arguments, then those of the line. */
  lemma ArgumentsBack(first: seq<string>, ws: seq<string>)
    requires Fits(ws) && |first| + |ws| < ARGV_SIZE
    requires forall k :: 0 <= k < |ws| ==> !NamesTable(ws[k]) && Survives(ws[k])
    ensures Judge(first, Lex(Print(ws), 0, false, [])) == Args(first + ws)
  {
    RoundTrip(ws);
    JudgeAll(first, ws);
  }

  /** A quote in the middle of an argument: the second tokenizer loses its first character. */
  lemma LateQuoteDiffers()
    ensures
      var line := "a\"b\" ";
      && Lex(line, 0, false, []) == Lexed(["ab"], Done)
      && Cut(line, 0, false, 0) == Lexed(["\"b"], Done)
  {
    var line := "a\"b\" ";
    assert Lex(line, 4, false, []) == Lexed([], Done) && Cut(line, 4, false, 4) == Lexed([], Done);
    assert Lex(line, 3, true, "ab") == Cons("ab", Lex(line, 4, false, []));
    assert Cut(line, 3, true, 1) == Cons(line[1..3], Cut(line, 4, false, 4));
    assert [] + ['a'] == "a";
    assert Lex(line, 0, false, []) == Lex(line, 1, false, "a") == Lex(line, 2, true, "a") == Lex(line, 3, true, "a" + "b");
    assert line[1..3] == "\"b" && "a" + "b" == "ab";
    assert ["ab"] + [] == ["ab"];
  }

  // ----- Text that was not quoted -----

  /** An argument holds at most one character for each one read before the one that ends it. */
  lemma {:induction false} WordBound(line: string, i: nat, open: bool, buf: string)
    requires i <= |line|
    ensures
      var words := Lex(line, i, open, buf).words;
      words != [] ==> |words[0]| < |buf| + (|line| - i)
    decreases |line| - i
  {
    if i < |line| {
      var c := line[i];
      if c == '"' && !open {
        WordBound(line, i + 1, true, buf);
      } else if (c == '"' && !Escaped(line, i)) || (Blank(c) && !open) {
        WordBound(line, i + 1, false, []);
      } else if open && c == '\\' && QuoteAt(line, i + 1) {
        WordBound(line, i + 1, true, buf);
      } else {
        WordBound(line, i + 1, open, buf + [c]);
      }
    }
  }

  /** The first character of a text that is not bare. */
  function FirstSpecial(w: string): (k: nat)
    requires !Bare(w)
    ensures k < |w| && (Blank(w[k]) || w[k] == '"') && Bare(w[..k])
  {
    if Blank(w[0]) || w[0] == '"' then 0
    else
      assert !Bare(w[1..]) by {
        var c :| c in w && (Blank(c) || c == '"');
        assert c in w[1..];
      }
      var k := FirstSpecial(w[1..]);
      assert w[..k + 1] == [w[0]] + w[1..][..k];
      k + 1
  }

  /** Printed as it is, a text with a blank or a quote at the end of the line is read as something shorter. */
  lemma SpecialMisread(line: string, i: nat, w: string)
    requires !Bare(w) && |w| < BUFFER_SIZE && i <= |line| && line[i..] == w + [' ']
    ensures
      var words := Lex(line, i, false, []).words;
      words != [] ==> |words[0]| < |w|
  {
    var k := FirstSpecial(w);
    assert line[i..i + k] == line[i..][..k] == w[..k];
    assert line[i + k] == line[i..][k] == w[k];
    BareRun(line, i, w[..k], []);
    assert [] + w[..k] == w[..k];
    if w[k] == '"' {
      WordBound(line, i + k + 1, true, w[..k]);
    } else if k == 0 {
      WordBound(line, i + 1, false, []);
    }
  }
}
