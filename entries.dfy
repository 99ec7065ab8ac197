/**
 * Building the list of entries the host displays (`get_entries`): each
 * history line of the form `id<TAB>content` becomes one entry whose value is
 * the id and whose name and description are the content; empty lines and
 * lines without a tab are skipped.
 */
module Entries {
  import opened Wrappers
  import opened Text
  import opened ClipboardHistory

  const TAB: char := '\t'

  /** One selectable item; `value` is what the host passes back on selection. */
  datatype Entry = Entry(
    name: string,
    description: string,
    value: string,
    icon: Option<string>,
    emoji: Option<string>)

  /** The entries exposed to the host, with the count the host reads. */
  datatype EntryList = EntryList(entries: seq<Entry>, length: nat)

  /** The entry one history line yields, if any: one iteration of the source's loop. */
  function EntryFor(line: string): (r: Option<Entry>)
    ensures r.Some? <==> TAB in line
    ensures r.Some? ==>
      line == r.value.value + [TAB] + r.value.name &&
      TAB !in r.value.value &&
      r.value.description == r.value.name &&
      r.value.icon == None && r.value.emoji == None
  {
    if |line| == 0 then None
    else
      var split := SplitOnce(line, TAB);
      if |split| != 2 then None
      else
        var id, content := split[0], split[1];
        Some(Entry(content, content, id, None, None))
  }

  /** The entries of `lines`: the lines' entries, in line order, skipping lines that yield none. */
  function EntriesOf(lines: seq<string>): seq<Entry>
    decreases |lines|
  {
    if |lines| == 0 then []
    else
      var init := EntriesOf(lines[..|lines| - 1]);
      match EntryFor(lines[|lines| - 1])
      case None => init
      case Some(e) => init + [e]
  }

  /** Number of lines containing a tab. */
  function TabbedCount(lines: seq<string>): nat
    decreases |lines|
  {
    if |lines| == 0 then 0
    else TabbedCount(lines[..|lines| - 1]) + (if TAB in lines[|lines| - 1] then 1 else 0)
  }

  /**
   * The source's `get_entries`: read the history from the collector output
   * `stdout`, then walk its lines in order, skipping empty lines and lines
   * without a tab, and push one entry per remaining line.
   */
  method GetEntries(stdout: string) returns (list: EntryList)
    ensures list.entries == EntriesOf(History(stdout))
    ensures list.length == |list.entries|
  {
    var items := GetClipboardHistory(stdout);
    var entries: seq<Entry> := [];
    for i := 0 to |items|
      invariant entries == EntriesOf(items[..i])
    {
      assert items[..i + 1][..i] == items[..i];
      var item := items[i];
      if |item| == 0 {
        continue;
      }
      var split := SplitOnce(item, TAB);
      if |split| != 2 {
        continue;
      }
      var id := split[0];
      var content := split[1];
      entries := entries + [Entry(content, content, id, None, None)];
    }
    assert items[..|items|] == items;
    list := EntryList(entries, |entries|);
  }

  /** A line `id<TAB>content` whose id holds no tab yields exactly that id and content; later tabs stay in the content. */
  lemma EntryForLine(id: string, content: string)
    requires TAB !in id
    ensures EntryFor(id + [TAB] + content) == Some(Entry(content, content, id, None, None))
  {
    SplitOnceAt(id, content, TAB);
  }

  /** Entries of concatenated line lists are the concatenated entries: the builder never reorders. */
  lemma {:induction false} EntriesAppend(a: seq<string>, b: seq<string>)
    ensures EntriesOf(a + b) == EntriesOf(a) + EntriesOf(b)
    decreases |b|
  {
    if |b| == 0 {
      assert a + b == a;
    } else {
      var b' := b[..|b| - 1];
      assert (a + b)[..|a + b| - 1] == a + b';
      EntriesAppend(a, b');
    }
  }

  /** One entry per line that contains a tab. */
  lemma {:induction false} EntriesCount(lines: seq<string>)
    ensures |EntriesOf(lines)| == TabbedCount(lines)
    decreases |lines|
  {
    if |lines| > 0 {
      EntriesCount(lines[..|lines| - 1]);
    }
  }

  /** Every entry comes from some line `value<TAB>name` of the input. */
  lemma {:induction false} EntriesFromLines(lines: seq<string>)
    ensures forall e :: e in EntriesOf(lines) ==> exists line :: line in lines && EntryFor(line) == Some(e)
    decreases |lines|
  {
    if |lines| > 0 {
      var n := |lines|;
      var init := lines[..n - 1];
      EntriesFromLines(init);
      assert forall line :: line in init ==> line in lines;
      assert lines[n - 1] in lines;
    }
  }

  /** The entry of the line at `i` sits in the output just after the entries of the lines before it. */
  lemma EntryPosition(lines: seq<string>, i: nat)
    requires i < |lines| && TAB in lines[i]
    ensures |EntriesOf(lines[..i])| < |EntriesOf(lines)|
    ensures Some(EntriesOf(lines)[|EntriesOf(lines[..i])|]) == EntryFor(lines[i])
  {
    assert lines == lines[..i] + [lines[i]] + lines[i + 1..];
    EntriesAppend(lines[..i] + [lines[i]], lines[i + 1..]);
    EntriesAppend(lines[..i], [lines[i]]);
    assert EntriesOf([lines[i]]) == [EntryFor(lines[i]).value] by {
      assert [lines[i]][..0] == [];
    }
  }

  /** Lines with a tab keep their relative order as entries. */
  lemma EntriesOrdered(lines: seq<string>, i: nat, j: nat)
    requires i < j < |lines| && TAB in lines[i] && TAB in lines[j]
    ensures exists p, q ::
      (0 <= p < q < |EntriesOf(lines)| &&
       Some(EntriesOf(lines)[p]) == EntryFor(lines[i]) &&
       Some(EntriesOf(lines)[q]) == EntryFor(lines[j]))
  {
    var front, back := lines[..j], lines[j..];
    assert lines == front + back;
    assert front[..i] == lines[..i];
    EntryPosition(lines, j);
    EntryPosition(front, i);
    EntriesAppend(front, back);
    var all, before := EntriesOf(lines), EntriesOf(front);
    var p, q := |EntriesOf(lines[..i])|, |before|;
    assert all[..q] == before;
    assert all[p] == before[p];
  }

  /** Entry values hold neither tab nor newline, and names hold no newline. */
  lemma EntryFieldsClean(stdout: string)
    ensures forall k :: 0 <= k < |EntriesOf(History(stdout))| ==>
      var e := EntriesOf(History(stdout))[k];
      TAB !in e.value && NEWLINE !in e.value && NEWLINE !in e.name
  {
    var lines := History(stdout);
    HistoryLinesFree(stdout);
    EntriesFromLines(lines);
    forall k | 0 <= k < |EntriesOf(lines)|
      ensures var e := EntriesOf(lines)[k];
        TAB !in e.value && NEWLINE !in e.value && NEWLINE !in e.name
    {
      var e := EntriesOf(lines)[k];
      assert e in EntriesOf(lines);
      var line :| line in lines && EntryFor(line) == Some(e);
      assert line == e.value + [TAB] + e.name;
      assert forall c :: c in e.value || c in e.name ==> c in line;
    }
  }

  /** Appending one line appends its entry, if it yields one. */
  lemma EntriesSnoc(lines: seq<string>, line: string)
    ensures EntriesOf(lines + [line]) ==
      EntriesOf(lines) + (if TAB in line then [EntryFor(line).value] else [])
  {
    assert (lines + [line])[..|lines|] == lines;
  }

  /** Two well-formed records give their two entries, in order. */
  lemma TwoRecords(id1: string, content1: string, id2: string, content2: string)
    requires TAB !in id1 && TAB !in id2
    ensures EntriesOf([id1 + [TAB] + content1, id2 + [TAB] + content2]) ==
      [Entry(content1, content1, id1, None, None), Entry(content2, content2, id2, None, None)]
  {
    var first, second := id1 + [TAB] + content1, id2 + [TAB] + content2;
    EntryForLine(id1, content1);
    EntryForLine(id2, content2);
    EntriesSnoc([], first);
    EntriesSnoc([first], second);
    assert [] + [first] == [first];
    assert [first] + [second] == [first, second];
  }

  /** The line `id<TAB>content` holds a newline only where its parts do. */
  lemma RecordFree(id: string, content: string)
    requires NEWLINE !in id && NEWLINE !in content
    ensures NEWLINE !in id + [TAB] + content
    ensures id + [TAB] + content != SENTINEL
  {
    assert TAB in id + [TAB] + content;
    assert TAB !in SENTINEL;
  }

  /** Four lines joined with newlines. */
  lemma JoinFour(a: string, b: string, c: string, d: string)
    ensures Join([a, b, c, d], NEWLINE) == a + [NEWLINE] + b + [NEWLINE] + c + [NEWLINE] + d
  {
    var lines := [a, b, c, d];
    var one, two, three := lines[..1], lines[..2], lines[..3];
    assert two[..1] == one == [a] && three[..2] == two == [a, b] && three == [a, b, c];
    assert Join(one, NEWLINE) == a;
    assert Join(two, NEWLINE) == a + [NEWLINE] + b;
    assert Join(three, NEWLINE) == a + [NEWLINE] + b + [NEWLINE] + c;
  }

  /**
   * The listing of an output holding two records and a trailing blank line:
   * exactly the two records' entries, in order, each content kept whole.
   */
  lemma ListingOfTwoRecords(id1: string, content1: string, id2: string, content2: string)
    requires TAB !in id1 && TAB !in id2
    requires NEWLINE !in id1 && NEWLINE !in content1 && NEWLINE !in id2 && NEWLINE !in content2
    ensures EntriesOf(History(id1 + [TAB] + content1 + [NEWLINE] + id2 + [TAB] + content2 + "\n\n")) ==
      [Entry(content1, content1, id1, None, None), Entry(content2, content2, id2, None, None)]
  {
    var first, second := id1 + [TAB] + content1, id2 + [TAB] + content2;
    var records, blanks := [first, second], ["", ""];
    var lines := records + blanks;
    assert lines == [first, second, "", ""];
    RecordFree(id1, content1);
    RecordFree(id2, content2);
    var stdout := first + [NEWLINE] + second + "\n\n";
    assert stdout == id1 + [TAB] + content1 + [NEWLINE] + id2 + [TAB] + content2 + "\n\n";
    assert Join(lines, NEWLINE) == stdout by {
      JoinFour(first, second, "", "");
      assert first + [NEWLINE] + second + [NEWLINE] + "" + [NEWLINE] + "" == stdout;
    }
    assert History(stdout) == lines by {
      HistoryOfJoin(lines);
    }
    assert EntriesOf(lines) == EntriesOf(records) + EntriesOf(blanks) by {
      EntriesAppend(records, blanks);
    }
    assert EntriesOf(blanks) == [] by {
      assert blanks[..1] == [""] && [""][..0] == [];
    }
    TwoRecords(id1, content1, id2, content2);
  }

  /** A collector output with two records and a trailing blank line; the second record's content holds a tab. */
  const EXAMPLE_OUTPUT: string := "42\tHello World\n7\tfoo\tbar\n\n"

  /** The example output is the two records `42<TAB>Hello World` and `7<TAB>foo<TAB>bar` followed by two newlines. */
  lemma ExampleOutputShape()
    ensures EXAMPLE_OUTPUT == "42" + [TAB] + "Hello World" + [NEWLINE] + "7" + [TAB] + "foo\tbar" + "\n\n"
  {
  }

  /** The example output lists two entries, the extra tab kept in the second content. */
  lemma ExampleListing()
    ensures EntriesOf(History(EXAMPLE_OUTPUT)) ==
      [Entry("Hello World", "Hello World", "42", None, None),
       Entry("foo\tbar", "foo\tbar", "7", None, None)]
  {
    ExampleOutputShape();
    assert TAB !in "42" && TAB !in "7" && NEWLINE !in "42" && NEWLINE !in "7";
    assert NEWLINE !in "Hello World" && NEWLINE !in "foo\tbar";
    ListingOfTwoRecords("42", "Hello World", "7", "foo\tbar");
  }
}
