/** The deduplicating, append-only line store behind every `save_*` tool:
    `save_dataset(file_path, messages)`. The file is its whole text; a file
    that does not exist reads as empty text. */
module Dataset {
  import opened PyText

  // ---------------------------------------------------------------------
  // Outcome of one call
  // ---------------------------------------------------------------------

  /** What a call reports: how many lines it appended, or that nothing was
      new. */
  datatype Outcome = Saved(count: nat) | NoNew

  /** The message string `save_dataset` returns for an outcome. The
      "no new messages" text is one string; it is written as two literals
      because the verifier does not look inside a string literal this
      long. */
  function Message(o: Outcome): string {
    match o
    case Saved(n) => DecimalString(n) + " new message(s) saved!"
    case NoNew => "No new messages to save; " + "all messages already exist."
  }

  /** The returned message tells the outcome apart: different outcomes
      never produce the same string. */
  lemma MessageInjective(o1: Outcome, o2: Outcome)
    requires Message(o1) == Message(o2)
    ensures o1 == o2
  {
    assert Message(NoNew)[0] == 'N';
    if o1.Saved? && o2.Saved? {
      var dm, dn := DecimalString(o1.count), DecimalString(o2.count);
      assert |dm| == |dn|;
      assert dm == Message(o1)[..|dm|];
      assert dn == Message(o2)[..|dn|];
      DecimalStringInjective(o1.count, o2.count);
    }
  }

  // ---------------------------------------------------------------------
  // Order of a subsequence
  // ---------------------------------------------------------------------

  /** `a` is `b` with some elements deleted, the rest kept in order. */
  predicate IsSubsequence<T(==)>(a: seq<T>, b: seq<T>)
    decreases |b|
  {
    if b == [] then a == []
    else (a != [] && a[0] == b[0] && IsSubsequence(a[1..], b[1..])) || IsSubsequence(a, b[1..])
  }

  lemma {:induction false} SubsequenceTransitive<T>(a: seq<T>, b: seq<T>, c: seq<T>)
    requires IsSubsequence(a, b) && IsSubsequence(b, c)
    ensures IsSubsequence(a, c)
    decreases |c|
  {
    if c == [] {
      assert b == [] && a == [];
    } else if b != [] && b[0] == c[0] && IsSubsequence(b[1..], c[1..]) {
      if a != [] && a[0] == b[0] && IsSubsequence(a[1..], b[1..]) {
        SubsequenceTransitive(a[1..], b[1..], c[1..]);
      } else {
        SubsequenceTransitive(a, b[1..], c[1..]);
      }
    } else {
      SubsequenceTransitive(a, b, c[1..]);
    }
  }

  // ---------------------------------------------------------------------
  // Line 45: the trimmed, non-blank fragments of the batch
  // ---------------------------------------------------------------------

  /** `[msg.strip() for msg in frags]`. */
  function Trimmed(frags: seq<string>): seq<string> {
    seq(|frags|, i requires 0 <= i < |frags| => Strip(frags[i]))
  }

  /** The batch split on "\n", each fragment trimmed. */
  function TrimmedFragments(messages: string): seq<string> {
    Trimmed(Split(messages, '\n'))
  }

  /** The `if msg.strip()` filter: the non-empty strings of `xs`. */
  function NonBlank(xs: seq<string>): seq<string> {
    if xs == [] then []
    else (if xs[0] != [] then [xs[0]] else []) + NonBlank(xs[1..])
  }

  /** `new_messages` (line 45). */
  function NewMessages(messages: string): seq<string> {
    NonBlank(TrimmedFragments(messages))
  }

  /** The non-blank strings keep their order... */
  lemma {:induction false} NonBlankOrder(xs: seq<string>)
    ensures IsSubsequence(NonBlank(xs), xs)
  {
    if xs != [] {
      NonBlankOrder(xs[1..]);
      var rest := NonBlank(xs[1..]);
      if xs[0] != [] {
        assert NonBlank(xs) == [xs[0]] + rest;
        assert ([xs[0]] + rest)[1..] == rest;
      } else {
        assert NonBlank(xs) == rest;
      }
    }
  }

  /** ... and each occurs as often as in `xs`, unless it is empty. */
  lemma {:induction false} NonBlankCount(xs: seq<string>, x: string)
    ensures multiset(NonBlank(xs))[x] == if x == [] then 0 else multiset(xs)[x]
  {
    if xs != [] {
      NonBlankCount(xs[1..], x);
      assert xs == [xs[0]] + xs[1..];
      assert multiset(xs) == multiset([xs[0]]) + multiset(xs[1..]);
      var head := if xs[0] != [] then [xs[0]] else [];
      assert multiset(NonBlank(xs)) == multiset(head) + multiset(NonBlank(xs[1..]));
    }
  }

  lemma NonBlankMembers(xs: seq<string>, x: string)
    ensures x in NonBlank(xs) <==> x in xs && x != []
  {
    NonBlankCount(xs, x);
    assert x in NonBlank(xs) <==> multiset(NonBlank(xs))[x] > 0;
    assert x in xs <==> multiset(xs)[x] > 0;
  }

  lemma TrimmedOfStripped(xs: seq<string>)
    requires forall i :: 0 <= i < |xs| ==> Strip(xs[i]) == xs[i]
    ensures Trimmed(xs) == xs
  {
  }

  lemma {:induction false} NonBlankOfNonEmpty(xs: seq<string>)
    requires forall i :: 0 <= i < |xs| ==> xs[i] != []
    ensures NonBlank(xs) == xs
  {
    if xs != [] {
      assert forall i :: 0 <= i < |xs[1..]| ==> xs[1..][i] != [] by {
        forall i | 0 <= i < |xs[1..]| ensures xs[1..][i] != [] {
          assert xs[1..][i] == xs[i + 1];
        }
      }
      NonBlankOfNonEmpty(xs[1..]);
      assert xs == [xs[0]] + xs[1..];
    }
  }

  /** A batch made of trimmed, non-blank lines joined by "\n" yields exactly
      those lines, in order. */
  lemma NewMessagesOfLines(parts: seq<string>)
    requires |parts| >= 1
    requires forall i :: 0 <= i < |parts| ==> parts[i] != [] && Strip(parts[i]) == parts[i] && '\n' !in parts[i]
    ensures NewMessages(Join(parts, '\n')) == parts
  {
    SplitJoin(parts, '\n');
    TrimmedOfStripped(parts);
    NonBlankOfNonEmpty(parts);
  }

  /** Every new message is non-empty, already trimmed and free of "\n". */
  lemma NewMessagesAreLines(messages: string, x: string)
    requires x in NewMessages(messages)
    ensures x != [] && Strip(x) == x && '\n' !in x
  {
    var t := TrimmedFragments(messages);
    var frags := Split(messages, '\n');
    NonBlankMembers(t, x);
    var i :| 0 <= i < |t| && t[i] == x;
    StripIdempotent(frags[i]);
    if '\n' in x {
      StripChars(frags[i], '\n');
    }
  }

  // ---------------------------------------------------------------------
  // Lines 38-42 and 48: the lines already in the file, and the filter
  // ---------------------------------------------------------------------

  /** The set the loop at lines 38-42 builds: every line, trimmed. */
  function TrimmedSet(lines: seq<string>): set<string> {
    if lines == [] then {} else TrimmedSet(lines[..|lines| - 1]) + {Strip(lines[|lines| - 1])}
  }

  /** The trimmed form of every line is in the set. */
  lemma {:induction false} InTrimmedSet(lines: seq<string>, i: nat)
    requires i < |lines|
    ensures Strip(lines[i]) in TrimmedSet(lines)
    decreases |lines|
  {
    var init := lines[..|lines| - 1];
    assert TrimmedSet(lines) == TrimmedSet(init) + {Strip(lines[|lines| - 1])};
    if i < |init| {
      InTrimmedSet(init, i);
      assert init[i] == lines[i];
    }
  }

  /** Everything in the set is the trimmed form of some line. */
  lemma {:induction false} TrimmedSetWitness(lines: seq<string>, x: string) returns (i: nat)
    requires x in TrimmedSet(lines)
    ensures i < |lines| && Strip(lines[i]) == x
    decreases |lines|
  {
    var init := lines[..|lines| - 1];
    if x == Strip(lines[|lines| - 1]) {
      i := |lines| - 1;
    } else {
      i := TrimmedSetWitness(init, x);
      assert init[i] == lines[i];
    }
  }

  lemma TrimmedSetStep(lines: seq<string>, i: nat)
    requires i < |lines|
    ensures TrimmedSet(lines[..i + 1]) == TrimmedSet(lines[..i]) + {Strip(lines[i])}
  {
    assert lines[..i + 1][..i] == lines[..i];
  }

  lemma {:induction false} TrimmedSetAppend(a: seq<string>, b: seq<string>)
    ensures TrimmedSet(a + b) == TrimmedSet(a) + TrimmedSet(b)
    decreases |b|
  {
    if b == [] {
      assert a + b == a;
    } else {
      var init := b[..|b| - 1];
      TrimmedSetAppend(a, init);
      assert (a + b)[..|a + b| - 1] == a + init;
    }
  }

  /** `existing_messages`: every line of the file, trimmed. */
  function ExistingMessages(content: string): set<string> {
    TrimmedSet(ReadLines(content))
  }

  /** `unique_messages` (line 48): the messages not in `existing`. */
  function Unique(msgs: seq<string>, existing: set<string>): seq<string> {
    if msgs == [] then []
    else (if msgs[0] in existing then [] else [msgs[0]]) + Unique(msgs[1..], existing)
  }

  /** The messages kept keep their order... */
  lemma {:induction false} UniqueOrder(msgs: seq<string>, existing: set<string>)
    ensures IsSubsequence(Unique(msgs, existing), msgs)
  {
    if msgs != [] {
      UniqueOrder(msgs[1..], existing);
      var rest := Unique(msgs[1..], existing);
      if msgs[0] !in existing {
        assert Unique(msgs, existing) == [msgs[0]] + rest;
        assert ([msgs[0]] + rest)[1..] == rest;
      } else {
        assert Unique(msgs, existing) == rest;
      }
    }
  }

  /** ... and each occurs as often as in `msgs`, unless it is in
      `existing`. */
  lemma {:induction false} UniqueCount(msgs: seq<string>, existing: set<string>, x: string)
    ensures multiset(Unique(msgs, existing))[x] == if x in existing then 0 else multiset(msgs)[x]
  {
    if msgs != [] {
      UniqueCount(msgs[1..], existing, x);
      assert msgs == [msgs[0]] + msgs[1..];
      assert multiset(msgs) == multiset([msgs[0]]) + multiset(msgs[1..]);
      var head := if msgs[0] in existing then [] else [msgs[0]];
      assert multiset(Unique(msgs, existing)) == multiset(head) + multiset(Unique(msgs[1..], existing));
    }
  }

  lemma UniqueMembers(msgs: seq<string>, existing: set<string>, x: string)
    ensures x in Unique(msgs, existing) <==> x in msgs && x !in existing
  {
    UniqueCount(msgs, existing, x);
    assert x in Unique(msgs, existing) <==> multiset(Unique(msgs, existing))[x] > 0;
    assert x in msgs <==> multiset(msgs)[x] > 0;
  }

  /** The lines one call appends to a file holding `content`. */
  function Fresh(content: string, messages: string): seq<string> {
    Unique(NewMessages(messages), ExistingMessages(content))
  }

  /** The text the write loop (lines 52-54) appends for `lines`. */
  function Appended(lines: seq<string>): (text: string)
    ensures lines == [] <==> text == []
  {
    if lines == [] then [] else Appended(lines[..|lines| - 1]) + lines[|lines| - 1] + "\n"
  }

  /** The file's text after one call. */
  function Stored(content: string, messages: string): string {
    content + Appended(Fresh(content, messages))
  }

  function OutcomeOf(appended: seq<string>): Outcome {
    if appended == [] then NoNew else Saved(|appended|)
  }

  // ---------------------------------------------------------------------
  // What one call appends
  // ---------------------------------------------------------------------

  /** Every appended line is non-empty, trimmed, free of "\n", and was not
      a trimmed line of the file before the call. */
  lemma FreshLinesAreNew(content: string, messages: string, x: string)
    requires x in Fresh(content, messages)
    ensures x in TrimmedFragments(messages)
    ensures x != [] && Strip(x) == x && '\n' !in x
    ensures x !in ExistingMessages(content)
  {
    UniqueMembers(NewMessages(messages), ExistingMessages(content), x);
    NonBlankMembers(TrimmedFragments(messages), x);
    NewMessagesAreLines(messages, x);
  }

  /** The appended lines keep the order of the batch. */
  lemma FreshOrder(content: string, messages: string)
    ensures IsSubsequence(Fresh(content, messages), TrimmedFragments(messages))
  {
    UniqueOrder(NewMessages(messages), ExistingMessages(content));
    NonBlankOrder(TrimmedFragments(messages));
    SubsequenceTransitive(Fresh(content, messages), NewMessages(messages), TrimmedFragments(messages));
  }

  /** Each trimmed fragment that is non-blank and not already in the file
      is appended exactly as many times as it occurs in the batch; all
      others are not appended at all. Repeats within one batch are
      therefore not collapsed. */
  lemma FreshCount(content: string, messages: string, x: string)
    ensures multiset(Fresh(content, messages))[x]
         == if x == [] || x in ExistingMessages(content) then 0 else multiset(TrimmedFragments(messages))[x]
  {
    UniqueCount(NewMessages(messages), ExistingMessages(content), x);
    NonBlankCount(TrimmedFragments(messages), x);
  }

  /** A call leaves the file unchanged, and reports that nothing is new,
      exactly when every non-blank trimmed fragment was already a line of
      the file. */
  lemma NothingNewIff(content: string, messages: string)
    ensures Stored(content, messages) == content
        <==> forall x :: x in NewMessages(messages) ==> x in ExistingMessages(content)
    ensures OutcomeOf(Fresh(content, messages)) == NoNew
        <==> forall x :: x in NewMessages(messages) ==> x in ExistingMessages(content)
  {
    var f := Fresh(content, messages);
    var e := ExistingMessages(content);
    if f == [] {
      forall x | x in NewMessages(messages) ensures x in e {
        UniqueMembers(NewMessages(messages), e, x);
      }
    } else {
      UniqueMembers(NewMessages(messages), e, f[0]);
      assert |Stored(content, messages)| > |content|;
    }
  }

  /** A batch of whitespace only (empty, or blank lines) appends nothing. */
  lemma BlankBatchAppendsNothing(content: string, messages: string)
    requires AllSpace(messages)
    ensures Fresh(content, messages) == []
    ensures Stored(content, messages) == content
  {
    var frags := Split(messages, '\n');
    SplitAllSpace(messages, '\n');
    TrimmedBlank(frags);
    NonBlankOfBlank(TrimmedFragments(messages));
    assert NewMessages(messages) == [];
  }

  lemma TrimmedBlank(frags: seq<string>)
    requires forall i :: 0 <= i < |frags| ==> AllSpace(frags[i])
    ensures forall i :: 0 <= i < |frags| ==> Trimmed(frags)[i] == []
  {
    forall i | 0 <= i < |frags| ensures Trimmed(frags)[i] == [] {
      StripBlank(frags[i]);
    }
  }

  lemma {:induction false} NonBlankOfBlank(xs: seq<string>)
    requires forall i :: 0 <= i < |xs| ==> xs[i] == []
    ensures NonBlank(xs) == []
  {
    if xs != [] {
      assert forall i :: 0 <= i < |xs[1..]| ==> xs[1..][i] == [] by {
        forall i | 0 <= i < |xs[1..]| ensures xs[1..][i] == [] {
          assert xs[1..][i] == xs[i + 1];
        }
      }
      NonBlankOfBlank(xs[1..]);
      assert NonBlank(xs) == [] + NonBlank(xs[1..]);
    }
  }

  // ---------------------------------------------------------------------
  // Reading the file back
  // ---------------------------------------------------------------------

  lemma AppendedStep(lines: seq<string>, line: string)
    ensures Appended(lines + [line]) == Appended(lines) + line + "\n"
  {
    assert (lines + [line])[..|lines|] == lines;
  }

  lemma AppendedPrefix(lines: seq<string>, i: nat)
    requires i < |lines|
    ensures Appended(lines[..i + 1]) == Appended(lines[..i]) + lines[i] + "\n"
  {
    AppendedStep(lines[..i], lines[i]);
    assert lines[..i + 1] == lines[..i] + [lines[i]];
  }

  /** A line that holds no line terminator and so reads back as one line. */
  predicate PlainLine(line: string) {
    line != [] && '\n' !in line && '\r' !in line
  }

  /** `[line + "\n" for line in lines]`. */
  function WithNewlines(lines: seq<string>): seq<string> {
    seq(|lines|, i requires 0 <= i < |lines| => lines[i] + "\n")
  }

  /** One more line written after text that ended with a line terminator
      reads back as one more line. */
  lemma ReadAppendedStep(before: string, last: string)
    requires Terminated(before)
    requires PlainLine(last)
    ensures ReadLines(before + (last + "\n")) == ReadLines(before) + [last + "\n"]
  {
    var line := last + "\n";
    assert line[0] != '\n' by {
      assert line[0] == last[0];
    }
    ReadLinesOfAppend(before, line);
    ReadLinesOfLine(last, "\n", []);
    assert last + "\n" + [] == line;
  }

  /** Lines appended to a file whose text ended with a line terminator read
      back, after the file's old lines, as themselves followed by "\n",
      as long as none of them holds a "\n" or "\r". */
  lemma {:induction false} ReadAppended(content: string, lines: seq<string>)
    requires Terminated(content)
    requires forall i :: 0 <= i < |lines| ==> PlainLine(lines[i])
    ensures ReadLines(content + Appended(lines)) == ReadLines(content) + WithNewlines(lines)
    ensures Terminated(content + Appended(lines))
    decreases |lines|
  {
    if lines == [] {
      assert content + [] == content;
    } else {
      var init, last := lines[..|lines| - 1], lines[|lines| - 1];
      assert lines == init + [last];
      assert forall i :: 0 <= i < |init| ==> PlainLine(init[i]) by {
        forall i | 0 <= i < |init| ensures PlainLine(init[i]) {
          assert init[i] == lines[i];
        }
      }
      ReadAppended(content, init);
      ReadAppendedLine(content, init, last);
    }
  }

  /** The inductive step of `ReadAppended`. */
  lemma ReadAppendedLine(content: string, init: seq<string>, last: string)
    requires Terminated(content + Appended(init))
    requires ReadLines(content + Appended(init)) == ReadLines(content) + WithNewlines(init)
    requires PlainLine(last)
    ensures ReadLines(content + Appended(init + [last])) == ReadLines(content) + WithNewlines(init + [last])
    ensures Terminated(content + Appended(init + [last]))
  {
    var before := content + Appended(init);
    AppendedAfter(content, init, last);
    ReadAppendedStep(before, last);
    WithNewlinesStep(init, last);
  }

  lemma AppendedAfter(content: string, init: seq<string>, last: string)
    ensures content + Appended(init + [last]) == (content + Appended(init)) + (last + "\n")
  {
    AppendedStep(init, last);
  }

  lemma WithNewlinesStep(init: seq<string>, last: string)
    ensures WithNewlines(init + [last]) == WithNewlines(init) + [last + "\n"]
  {
  }

  /** The elements of `s`, as a set. */
  function Elements<T>(s: seq<T>): set<T> {
    if s == [] then {} else Elements(s[..|s| - 1]) + {s[|s| - 1]}
  }

  lemma {:induction false} ElementsMembers<T>(s: seq<T>, x: T)
    ensures x in Elements(s) <==> x in s
    decreases |s|
  {
    if s != [] {
      var init := s[..|s| - 1];
      ElementsMembers(init, x);
      assert s == init + [s[|s| - 1]];
    }
  }

  lemma ElementsStep<T>(init: seq<T>, last: T)
    ensures Elements(init + [last]) == Elements(init) + {last}
  {
    assert (init + [last])[..|init|] == init;
  }

  /** One more written line adds itself to the trimmed set. */
  lemma WrittenStep(init: seq<string>, last: string)
    requires last != [] && Strip(last) == last
    ensures TrimmedSet(WithNewlines(init + [last])) == TrimmedSet(WithNewlines(init)) + {last}
  {
    var w := WithNewlines(init + [last]);
    assert (init + [last])[..|init|] == init;
    assert w[..|w| - 1] == WithNewlines(init);
    assert Strip(w[|w| - 1]) == last by {
      StripTerminated(last, '\n');
    }
  }

  /** Written lines that are stripped and non-empty trim back to
      themselves. */
  lemma {:induction false} TrimmedSetOfWritten(lines: seq<string>)
    requires forall i :: 0 <= i < |lines| ==> lines[i] != [] && Strip(lines[i]) == lines[i]
    ensures TrimmedSet(WithNewlines(lines)) == Elements(lines)
    decreases |lines|
  {
    if lines != [] {
      var init, last := lines[..|lines| - 1], lines[|lines| - 1];
      assert lines == init + [last];
      assert forall i :: 0 <= i < |init| ==> init[i] != [] && Strip(init[i]) == init[i] by {
        forall i | 0 <= i < |init| ensures init[i] != [] && Strip(init[i]) == init[i] {
          assert init[i] == lines[i];
        }
      }
      TrimmedSetOfWritten(init);
      WrittenStep(init, last);
      ElementsStep(init, last);
    }
  }

  /** After appending stripped plain lines to a file whose text ended with
      a line terminator, the set of trimmed lines is the old set plus the
      appended lines. */
  lemma ExistingOfAppended(content: string, lines: seq<string>)
    requires Terminated(content)
    requires forall i :: 0 <= i < |lines| ==> PlainLine(lines[i]) && Strip(lines[i]) == lines[i]
    ensures ExistingMessages(content + Appended(lines)) == ExistingMessages(content) + Elements(lines)
    ensures Terminated(content + Appended(lines))
  {
    ReadAppended(content, lines);
    TrimmedSetAppend(ReadLines(content), WithNewlines(lines));
    TrimmedSetOfWritten(lines);
  }

  /** Without an interior "\r" in the batch, every appended line is a
      plain, stripped line. */
  lemma FreshArePlain(content: string, messages: string)
    requires forall x :: x in NewMessages(messages) ==> '\r' !in x
    ensures forall i :: 0 <= i < |Fresh(content, messages)| ==>
      PlainLine(Fresh(content, messages)[i]) && Strip(Fresh(content, messages)[i]) == Fresh(content, messages)[i]
  {
    var f := Fresh(content, messages);
    forall i | 0 <= i < |f| ensures PlainLine(f[i]) && Strip(f[i]) == f[i] {
      FreshLinesAreNew(content, messages, f[i]);
      UniqueMembers(NewMessages(messages), ExistingMessages(content), f[i]);
    }
  }

  /** After one call, from a file whose text ended with a line terminator,
      the set of trimmed lines is the old set plus the appended lines, as
      long as no non-blank trimmed fragment holds an interior "\r". */
  lemma ExistingAfterStore(content: string, messages: string)
    requires Terminated(content)
    requires forall x :: x in NewMessages(messages) ==> '\r' !in x
    ensures ExistingMessages(Stored(content, messages))
         == ExistingMessages(content) + Elements(Fresh(content, messages))
    ensures Terminated(Stored(content, messages))
  {
    FreshArePlain(content, messages);
    ExistingOfAppended(content, Fresh(content, messages));
  }

  /** The count a call reports is the number of lines the file has gained,
      as it reads back: the old lines come first, unchanged, followed by
      one line per appended message. */
  lemma SavedCountIsLinesAdded(content: string, messages: string)
    requires Terminated(content)
    requires forall x :: x in NewMessages(messages) ==> '\r' !in x
    ensures ReadLines(Stored(content, messages)) == ReadLines(content) + WithNewlines(Fresh(content, messages))
    ensures OutcomeOf(Fresh(content, messages)).Saved? ==>
      |ReadLines(Stored(content, messages))| == |ReadLines(content)| + OutcomeOf(Fresh(content, messages)).count
  {
    FreshArePlain(content, messages);
    ReadAppended(content, Fresh(content, messages));
  }

  lemma AppendedEnds(lines: seq<string>)
    requires lines != []
    ensures var text := Appended(lines); text[|text| - 1] == '\n'
  {
  }

  /** A file that ended with a line terminator still does after a call;
      so does one that was empty, or that the call wrote to. */
  lemma StoredTerminated(content: string, messages: string)
    requires Terminated(content) || Fresh(content, messages) != []
    ensures Terminated(Stored(content, messages))
  {
    var f := Fresh(content, messages);
    if f != [] {
      AppendedEnds(f);
      var text := Appended(f);
      assert Stored(content, messages)[|Stored(content, messages)| - 1] == text[|text| - 1];
    } else {
      assert Stored(content, messages) == content;
    }
  }

  // ---------------------------------------------------------------------
  // Calling twice
  // ---------------------------------------------------------------------

  /** Saving the same batch a second time appends nothing and reports that
      nothing is new — provided the file's text ended with a line terminator
      (as it does when this store alone has written it) and no non-blank
      trimmed fragment holds an interior "\r". */
  lemma StoreTwiceAppendsNothing(content: string, messages: string)
    requires Terminated(content)
    requires forall x :: x in NewMessages(messages) ==> '\r' !in x
    ensures Fresh(Stored(content, messages), messages) == []
    ensures Stored(Stored(content, messages), messages) == Stored(content, messages)
  {
    var after := Stored(content, messages);
    forall x | x in NewMessages(messages) ensures x in ExistingMessages(after) {
      InExistingAfterStore(content, messages, x);
    }
    NothingNewIff(after, messages);
  }

  /** After one call every non-blank trimmed fragment of the batch is a
      trimmed line of the file. */
  lemma InExistingAfterStore(content: string, messages: string, x: string)
    requires Terminated(content)
    requires forall x :: x in NewMessages(messages) ==> '\r' !in x
    requires x in NewMessages(messages)
    ensures x in ExistingMessages(Stored(content, messages))
  {
    var f := Fresh(content, messages);
    ExistingAfterStore(content, messages);
    if x !in ExistingMessages(content) {
      UniqueMembers(NewMessages(messages), ExistingMessages(content), x);
      ElementsMembers(f, x);
    }
  }

  /** Into an empty file, a call writes every trimmed non-blank fragment of
      the batch, in batch order. */
  lemma StoredFromEmpty(messages: string)
    ensures Fresh([], messages) == NewMessages(messages)
    ensures Stored([], messages) == Appended(NewMessages(messages))
  {
    var e := ExistingMessages([]);
    assert ReadLines([]) == [];
    assert e == {};
    UniqueOfNothing(NewMessages(messages), e);
  }

  lemma {:induction false} UniqueOfNothing(msgs: seq<string>, existing: set<string>)
    requires existing == {}
    ensures Unique(msgs, existing) == msgs
  {
    if msgs != [] {
      UniqueOfNothing(msgs[1..], existing);
      assert msgs == [msgs[0]] + msgs[1..];
    }
  }

  // ---------------------------------------------------------------------
  // The store
  // ---------------------------------------------------------------------

  /** One destination file: its whole text. */
  class LineStore {
    var content: string

    /** A file holding `initial` (empty when the file does not exist). */
    constructor (initial: string)
      ensures content == initial
    {
      content := initial;
    }

    /** Lines 38-42: the set of the file's lines, each trimmed. */
    method ReadExisting() returns (existing: set<string>)
      ensures existing == ExistingMessages(content)
    {
      existing := {};
      var lines := ReadLines(content);
      for i := 0 to |lines|
        invariant existing == TrimmedSet(lines[..i])
      {
        TrimmedSetStep(lines, i);
        existing := existing + {Strip(lines[i])};
      }
      assert lines[..|lines|] == lines;
    }

    /** Lines 52-54: append each line followed by "\n". */
    method AppendLines(lines: seq<string>)
      modifies this
      ensures content == old(content) + Appended(lines)
    {
      for i := 0 to |lines|
        invariant content == old(content) + Appended(lines[..i])
      {
        AppendedPrefix(lines, i);
        content := content + lines[i] + "\n";
      }
      assert lines[..|lines|] == lines;
    }

    /** `save_dataset(file_path, messages)`: read the trimmed lines of the
        file into a set, keep the batch's trimmed non-blank fragments that
        are not in it, append them one per line, and report how many. The
        file's old text stays a prefix of its new text. */
    method SaveDataset(messages: string) returns (message: string)
      modifies this
      ensures content == old(content) + Appended(Fresh(old(content), messages))
      ensures message == Message(OutcomeOf(Fresh(old(content), messages)))
      ensures message == Message(NoNew) <==> content == old(content)
    {
      var existing := ReadExisting();
      var newMessages := NewMessages(messages);
      var unique := Unique(newMessages, existing);
      var outcome: Outcome;
      if unique != [] {
        AppendLines(unique);
        outcome := Saved(|unique|);
      } else {
        outcome := NoNew;
      }
      message := Message(outcome);
      if message == Message(NoNew) {
        MessageInjective(outcome, NoNew);
      }
    }
  }
}
