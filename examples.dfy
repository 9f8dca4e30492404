/** Calls of `save_dataset` on small files and batches, for any messages
    `a`, `b`, `c` of the usual shape: non-empty, already trimmed, and
    without line terminators. */
module DatasetExamples {
  import opened PyText
  import opened Dataset

  /** A message as a caller usually writes it. */
  predicate Plain(x: string) {
    PlainLine(x) && Strip(x) == x
  }

  lemma JoinTwo(a: string, b: string)
    ensures Join([a, b], '\n') == a + "\n" + b
  {
    assert [a, b][1..] == [b];
  }

  lemma JoinThree(a: string, b: string, c: string)
    ensures Join([a, b, c], '\n') == a + "\n" + b + "\n" + c
  {
    assert [a, b, c][1..] == [b, c];
    JoinTwo(b, c);
  }

  lemma AppendedOne(a: string)
    ensures Appended([a]) == a + "\n"
  {
    assert [a][..0] == [];
  }

  lemma AppendedTwo(a: string, b: string)
    ensures Appended([a, b]) == a + "\n" + b + "\n"
  {
    AppendedOne(a);
    AppendedStep([a], b);
    assert [a] + [b] == [a, b];
  }

  lemma AppendedThree(a: string, b: string, c: string)
    ensures Appended([a, b, c]) == a + "\n" + b + "\n" + c + "\n"
  {
    AppendedTwo(a, b);
    AppendedStep([a, b], c);
    assert [a, b] + [c] == [a, b, c];
  }

  /** A file holding one message and its "\n" has that message as its only
      trimmed line. */
  lemma ReadsAsOneLine(line: string)
    requires Plain(line)
    ensures ReadLines(line + "\n") == [line + "\n"]
    ensures ExistingMessages(line + "\n") == {line}
  {
    var text := line + "\n";
    assert ReadLines(text) == [text] by {
      ReadLinesOfLine(line, "\n", []);
      assert line + "\n" + [] == text;
      assert [text] + ReadLines([]) == [text];
    }
    assert Strip(text) == line by {
      StripTerminated(line, '\n');
      assert line + ['\n'] == text;
    }
    assert TrimmedSet([text]) == {line} by {
      assert [text][..0] == [];
    }
  }

  /** The batch order is kept: `b`, `a`, `c` is written as `b`, `a`, `c`. */
  lemma OrderKept(a: string, b: string, c: string)
    requires Plain(a) && Plain(b) && Plain(c)
    ensures Fresh("", b + "\n" + a + "\n" + c) == [b, a, c]
    ensures Stored("", b + "\n" + a + "\n" + c) == b + "\n" + a + "\n" + c + "\n"
    ensures OutcomeOf(Fresh("", b + "\n" + a + "\n" + c)) == Saved(3)
  {
    var m := b + "\n" + a + "\n" + c;
    JoinThree(b, a, c);
    NewMessagesOfLines([b, a, c]);
    StoredFromEmpty(m);
    AppendedThree(b, a, c);
  }

  /** A message repeated within one batch is written every time. */
  lemma RepeatsWithinBatch(a: string)
    requires Plain(a)
    ensures Fresh("", a + "\n" + a) == [a, a]
    ensures Stored("", a + "\n" + a) == a + "\n" + a + "\n"
    ensures OutcomeOf(Fresh("", a + "\n" + a)) == Saved(2)
  {
    var m := a + "\n" + a;
    JoinTwo(a, a);
    NewMessagesOfLines([a, a]);
    StoredFromEmpty(m);
    AppendedTwo(a, a);
  }

  /** A batch of two messages written to an empty file reads back as
      exactly those two messages. */
  lemma ReadBackPair(x: string, y: string)
    requires Plain(x) && Plain(y)
    ensures ExistingMessages(Stored("", x + "\n" + y)) == {x, y}
  {
    var m := x + "\n" + y;
    JoinTwo(x, y);
    NewMessagesOfLines([x, y]);
    StoredFromEmpty(m);
    AppendedTwo(x, y);
    assert Stored("", m) == x + "\n" + (y + "\n");
    ReadLinesOfLine(x, "\n", y + "\n");
    ReadsAsOneLine(y);
    assert ReadLines(Stored("", m)) == [x + "\n", y + "\n"];
    WrittenPair(x, y);
  }

  /** A message already in the file is not written again, even where the
      batch repeats it; the other messages still are. */
  lemma AlreadyPresent(a: string, b: string)
    requires Plain(a) && Plain(b) && a != b
    ensures Fresh(a + "\n", a + "\n" + b + "\n" + a) == [b]
    ensures Stored(a + "\n", a + "\n" + b + "\n" + a) == a + "\n" + b + "\n"
  {
    AlreadyPresentFresh(a, b);
    AppendedOne(b);
  }

  lemma AlreadyPresentFresh(a: string, b: string)
    requires Plain(a) && Plain(b) && a != b
    ensures Fresh(a + "\n", a + "\n" + b + "\n" + a) == [b]
  {
    JoinThree(a, b, a);
    NewMessagesOfLines([a, b, a]);
    ReadsAsOneLine(a);
    DropExisting(a, b);
  }

  lemma UniqueStep(msgs: seq<string>, existing: set<string>)
    requires msgs != []
    ensures Unique(msgs, existing)
         == (if msgs[0] in existing then [] else [msgs[0]]) + Unique(msgs[1..], existing)
  {
  }

  lemma DropExisting(a: string, b: string)
    requires a != b
    ensures Unique([a, b, a], {a}) == [b]
  {
    UniqueStep([a], {a});
    assert Unique([a], {a}) == [] by {
      assert [a][1..] == [];
    }
    UniqueStep([b, a], {a});
    assert [b, a][1..] == [a];
    UniqueStep([a, b, a], {a});
    assert [a, b, a][1..] == [b, a];
  }

  /** A file written with "\r\n" line ends holds the same messages. */
  lemma WindowsLineEnds(a: string)
    requires Plain(a)
    ensures ExistingMessages(a + "\r\n") == {a}
    ensures Fresh(a + "\r\n", a) == []
    ensures Stored(a + "\r\n", a) == a + "\r\n"
  {
    var text := a + "\r\n";
    assert ReadLines(text) == [a + "\n"] by {
      ReadLinesOfLine(a, "\r\n", []);
      assert a + "\r\n" + [] == text;
      assert [a + "\n"] + ReadLines([]) == [a + "\n"];
    }
    ReadsAsOneLine(a);
    assert Join([a], '\n') == a;
    NewMessagesOfLines([a]);
    assert Unique([a], {a}) == [];
  }

  // ---------------------------------------------------------------------
  // Where saving the same batch twice appends it twice
  // ---------------------------------------------------------------------

  /** Two messages joined by a bare "\r" are one message, and one line,
      as written, but read back as two lines; so a second call with the
      same batch writes it again. */
  lemma InteriorCarriageReturn(a: string, b: string)
    requires Plain(a) && Plain(b)
    ensures Stored("", a + "\r" + b) == a + "\r" + b + "\n"
    ensures ExistingMessages(a + "\r" + b + "\n") == {a, b}
    ensures Fresh(Stored("", a + "\r" + b), a + "\r" + b) == [a + "\r" + b]
  {
    var m := a + "\r" + b;
    CarriageReturnBatch(a, b);
    StoredFromEmpty(m);
    AppendedOne(m);
    CarriageReturnReadBack(a, b);
    assert Unique([m], {a, b}) == [m] by {
      assert |m| > |a| && |m| > |b|;
      UniqueStep([m], {a, b});
      assert [m][1..] == [];
    }
  }

  lemma CarriageReturnBatch(a: string, b: string)
    requires Plain(a) && Plain(b)
    ensures NewMessages(a + "\r" + b) == [a + "\r" + b]
  {
    var m := a + "\r" + b;
    StripEnds(a);
    StripEnds(b);
    assert m[0] == a[0] && m[|m| - 1] == b[|b| - 1];
    StripFixed(m);
    assert '\n' !in m;
    assert Join([m], '\n') == m;
    NewMessagesOfLines([m]);
  }

  lemma CarriageReturnReadBack(a: string, b: string)
    requires Plain(a) && Plain(b)
    ensures ExistingMessages(a + "\r" + b + "\n") == {a, b}
  {
    CarriageReturnLines(a, b);
    WrittenPair(a, b);
  }

  lemma CarriageReturnLines(a: string, b: string)
    requires Plain(a) && Plain(b)
    ensures ReadLines(a + "\r" + b + "\n") == [a + "\n", b + "\n"]
  {
    assert a + "\r" + b + "\n" == a + "\r" + (b + "\n");
    assert (b + "\n")[0] == b[0];
    ReadLinesOfLine(a, "\r", b + "\n");
    ReadsAsOneLine(b);
  }

  lemma WrittenPair(a: string, b: string)
    requires Plain(a) && Plain(b)
    ensures TrimmedSet([a + "\n", b + "\n"]) == {a, b}
  {
    StripWritten(a);
    StripWritten(b);
    TrimmedSetPair(a + "\n", b + "\n");
  }

  lemma StripWritten(x: string)
    requires Plain(x)
    ensures Strip(x + "\n") == x
  {
    StripTerminated(x, '\n');
    assert x + ['\n'] == x + "\n";
  }

  lemma TrimmedSetPair(p: string, q: string)
    ensures TrimmedSet([p, q]) == {Strip(p), Strip(q)}
  {
    assert [p, q][..1] == [p];
    assert TrimmedSet([p, q]) == TrimmedSet([p]) + {Strip(q)};
    assert [p][..0] == [];
    assert TrimmedSet([p]) == {} + {Strip(p)};
  }

  /** A file whose last line has no terminator gets the next message
      written onto that line, and a second call with the same batch writes
      it again. */
  lemma UnterminatedFile(a: string, b: string)
    requires Plain(a) && Plain(b) && a != b
    ensures Stored(a, b) == a + b + "\n"
    ensures ExistingMessages(Stored(a, b)) == {a + b}
    ensures Fresh(Stored(a, b), b) == [b]
  {
    UnterminatedFirstCall(a, b);
    var ab := a + b;
    PlainConcat(a, b);
    ReadsAsOneLine(ab);
    NewMessagesOfLines([b]);
    assert Unique([b], {ab}) == [b] by {
      assert |ab| > |b|;
      UniqueStep([b], {ab});
      assert [b][1..] == [];
    }
  }

  lemma UnterminatedFirstCall(a: string, b: string)
    requires Plain(a) && Plain(b) && a != b
    ensures Stored(a, b) == a + b + "\n"
  {
    UnterminatedFresh(a, b);
    AppendedOne(b);
    assert a + (b + "\n") == a + b + "\n";
  }

  lemma UnterminatedFresh(a: string, b: string)
    requires Plain(a) && Plain(b) && a != b
    ensures Fresh(a, b) == [b]
  {
    assert ExistingMessages(a) == {a} by {
      ReadsAsPartialLine(a);
      assert TrimmedSet([a]) == TrimmedSet([]) + {Strip(a)} by {
        assert [a][..0] == [];
      }
    }
    assert NewMessages(b) == [b] by {
      assert Join([b], '\n') == b;
      NewMessagesOfLines([b]);
    }
    UniqueStep([b], {a});
    assert [b][1..] == [];
  }

  lemma PlainConcat(a: string, b: string)
    requires Plain(a) && Plain(b)
    ensures Plain(a + b)
  {
    var ab := a + b;
    StripEnds(a);
    StripEnds(b);
    assert ab[0] == a[0] && ab[|ab| - 1] == b[|b| - 1];
    StripFixed(ab);
    assert '\n' !in ab && '\r' !in ab;
  }

  /** Text without a line terminator reads back as one (incomplete)
      line. */
  lemma {:induction false} ReadsAsPartialLine(line: string)
    requires line != [] && '\n' !in line && '\r' !in line
    ensures ReadLines(line) == [line]
    decreases |line|
  {
    var rest := line[1..];
    assert !IsTerminator(line[0]);
    if rest == [] {
      assert line == [line[0]];
    } else {
      ReadsAsPartialLine(rest);
      assert ReadLines(line) == ConsChar(line[0], [rest]);
      assert [line[0]] + rest == line;
    }
  }
}
