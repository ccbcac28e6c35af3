/**
 * The records a list of fetched dump files yields. A file is `strip()`ped and
 * split into lines; each line that `parse_line` accepts yields one record,
 * keyed by its id. A file that could not be fetched is None.
 */
module Sources {
  import opened Optional
  import opened PyStr
  import opened LineParser
  import opened OrderedDict

  type Entry = (string, UserRecord)

  /** A line parser: `parse_line` with its UTF-8 decoder fixed. */
  type LineParse = string -> Option<Parsed>

  /** `content.strip().split('\n')`. */
  function Lines(content: string): (ls: seq<string>)
    ensures |ls| >= 1
  {
    Split(Strip(content), '\n')
  }

  /**
   * How a fetched file is read: `split` breaks its text into lines and
   * `parse` is `parse_line`. The service reads with `ServiceReader`.
   */
  datatype Reader = Reader(split: string -> seq<string>, parse: LineParse)

  /** `content.strip().split('\n')`, then `parse_line` with the decoder `utf8`. */
  function ServiceReader(utf8: Utf8Decoder): Reader {
    Reader(Lines, ParserOf(utf8))
  }

  /** `parse_line` with a fixed UTF-8 decoder. */
  function ParserOf(utf8: Utf8Decoder): LineParse {
    line => Parse(line, utf8)
  }

  lemma ParserOfApply(utf8: Utf8Decoder, line: string)
    ensures ParserOf(utf8)(line) == Parse(line, utf8)
  {
  }

  /** The record one line yields: none when it does not parse. */
  function LineEntry(line: string, parse: LineParse): (es: seq<Entry>)
    ensures |es| <= 1
  {
    match parse(line)
    case None => []
    case Some(p) => [(p.userId, p.rec)]
  }

  /** The records of the lines that parse, in line order. */
  function LineEntries(lines: seq<string>, parse: LineParse): seq<Entry>
    decreases |lines|
  {
    if lines == [] then []
    else LineEntries(lines[..|lines| - 1], parse) + LineEntry(lines[|lines| - 1], parse)
  }

  function SourceEntries(src: Option<string>, rd: Reader): seq<Entry> {
    match src
    case None => []
    case Some(content) => LineEntries(rd.split(content), rd.parse)
  }

  /** The records of all available files, file after file. */
  function Entries(srcs: seq<Option<string>>, rd: Reader): seq<Entry>
    decreases |srcs|
  {
    if srcs == [] then []
    else Entries(srcs[..|srcs| - 1], rd) + SourceEntries(srcs[|srcs| - 1], rd)
  }

  /** The store `load_from_github` builds: every record assigned in order into an empty `OrderedDict`. */
  function Reload(srcs: seq<Option<string>>, rd: Reader): (d: ODict<UserRecord>)
    ensures Valid(d)
  {
    PutAll(Empty(), Entries(srcs, rd))
  }

  // ---------------------------------------------------------------------------
  // Where records come from

  lemma {:induction false} LineEntriesAppend(a: seq<string>, b: seq<string>, parse: LineParse)
    ensures LineEntries(a + b, parse) == LineEntries(a, parse) + LineEntries(b, parse)
    decreases |b|
  {
    if b == [] {
      assert a + b == a;
    } else {
      var n := |b|;
      var ab := a + b;
      assert ab[..|ab| - 1] == a + b[..n - 1];
      assert ab[|ab| - 1] == b[n - 1];
      LineEntriesAppend(a, b[..n - 1], parse);
      Assoc(LineEntries(a, parse), LineEntries(b[..n - 1], parse), LineEntry(b[n - 1], parse));
    }
  }

  lemma {:induction false} EntriesAppend(a: seq<Option<string>>, b: seq<Option<string>>, rd: Reader)
    ensures Entries(a + b, rd) == Entries(a, rd) + Entries(b, rd)
    decreases |b|
  {
    if b == [] {
      assert a + b == a;
    } else {
      var n := |b|;
      var ab := a + b;
      assert ab[..|ab| - 1] == a + b[..n - 1];
      assert ab[|ab| - 1] == b[n - 1];
      EntriesAppend(a, b[..n - 1], rd);
      Assoc(Entries(a, rd), Entries(b[..n - 1], rd), SourceEntries(b[n - 1], rd));
    }
  }

  lemma Assoc(x: seq<Entry>, y: seq<Entry>, z: seq<Entry>)
    ensures (x + y) + z == x + (y + z)
  {
  }

  lemma LineEntriesSnoc(lines: seq<string>, j: nat, parse: LineParse)
    requires j < |lines|
    ensures LineEntries(lines[..j + 1], parse) == LineEntries(lines[..j], parse) + LineEntry(lines[j], parse)
  {
    assert lines[..j + 1][..j] == lines[..j];
  }

  lemma EntriesSnoc(srcs: seq<Option<string>>, s: nat, rd: Reader)
    requires s < |srcs|
    ensures Entries(srcs[..s + 1], rd) == Entries(srcs[..s], rd) + SourceEntries(srcs[s], rd)
  {
    assert srcs[..s + 1][..s] == srcs[..s];
  }

  /** The records of all files split around file `s`. */
  lemma EntriesAt(srcs: seq<Option<string>>, s: nat, rd: Reader)
    requires s < |srcs|
    ensures Entries(srcs, rd) == Entries(srcs[..s], rd) + SourceEntries(srcs[s], rd) + Entries(srcs[s + 1..], rd)
  {
    assert srcs == srcs[..s + 1] + srcs[s + 1..];
    EntriesAppend(srcs[..s + 1], srcs[s + 1..], rd);
    EntriesSnoc(srcs, s, rd);
  }

  /** The records of some lines split around line `j`. */
  lemma LineEntriesAt(lines: seq<string>, j: nat, parse: LineParse)
    requires j < |lines|
    ensures LineEntries(lines, parse) == LineEntries(lines[..j], parse) + LineEntry(lines[j], parse) + LineEntries(lines[j + 1..], parse)
  {
    assert lines == lines[..j + 1] + lines[j + 1..];
    LineEntriesAppend(lines[..j + 1], lines[j + 1..], parse);
    LineEntriesSnoc(lines, j, parse);
  }

  lemma SourceLines(content: string, rd: Reader)
    ensures SourceEntries(Some(content), rd) == LineEntries(rd.split(content), rd.parse)
  {
  }

  /** A line `parse_line` rejects contributes nothing. */
  lemma UnparseableLineIgnored(a: seq<string>, line: string, b: seq<string>, parse: LineParse)
    requires parse(line).None?
    ensures LineEntries(a + [line] + b, parse) == LineEntries(a + b, parse)
  {
    var al := a + [line];
    assert al[..|al| - 1] == a && al[|al| - 1] == line;
    assert LineEntries(al, parse) == LineEntries(a, parse) + [];
    assert LineEntries(a, parse) + [] == LineEntries(a, parse);
    LineEntriesAppend(al, b, parse);
    LineEntriesAppend(a, b, parse);
  }

  lemma EntriesOfNone(rd: Reader)
    ensures Entries([None], rd) == []
  {
    var none: seq<Option<string>> := [None];
    assert none[..0] == [];
  }

  /** A file that could not be fetched contributes nothing. */
  lemma UnavailableSourceIgnored(a: seq<Option<string>>, b: seq<Option<string>>, rd: Reader)
    ensures Entries(a + [None] + b, rd) == Entries(a + b, rd)
  {
    EntriesAppend(a + [None], b, rd);
    EntriesAppend(a, [None], rd);
    EntriesOfNone(rd);
    EntriesAppend(a, b, rd);
    assert Entries(a, rd) + [] == Entries(a, rd);
  }

  /** An empty file has no records: it is the single empty line, which `parse_line` rejects. */
  lemma EmptySource(utf8: Utf8Decoder)
    ensures SourceEntries(Some(""), ServiceReader(utf8)) == []
  {
    var empty: seq<string> := [""];
    assert Strip("") == [];
    assert Lines("") == empty;
    assert Parse("", utf8).None?;
    assert empty[..0] == [];
  }

  /** A record comes from a line of its file that parses to it, and every such line yields its record. */
  lemma {:induction false} LineEntriesOrigin(lines: seq<string>, parse: LineParse, e: Entry)
    ensures e in LineEntries(lines, parse) <==>
      exists j | 0 <= j < |lines| :: parse(lines[j]) == Some(Parsed(e.0, e.1))
    decreases |lines|
  {
    if lines != [] {
      var n := |lines|;
      var pre := lines[..n - 1];
      LineEntriesOrigin(pre, parse, e);
      if e in LineEntries(lines, parse) && e !in LineEntries(pre, parse) {
        assert parse(lines[n - 1]) == Some(Parsed(e.0, e.1));
      }
      if j :| 0 <= j < n && parse(lines[j]) == Some(Parsed(e.0, e.1)) {
        if j < n - 1 {
          assert pre[j] == lines[j];
        }
      }
    }
  }

  /** The records are exactly those of the available files, file by file. */
  lemma {:induction false} EntriesOrigin(srcs: seq<Option<string>>, rd: Reader, e: Entry)
    ensures e in Entries(srcs, rd) <==>
      exists i | 0 <= i < |srcs| :: e in SourceEntries(srcs[i], rd)
    decreases |srcs|
  {
    if srcs != [] {
      var n := |srcs|;
      var pre := srcs[..n - 1];
      EntriesOrigin(pre, rd, e);
      OriginStep(srcs, pre, Entries(pre, rd), SourceEntries(srcs[n - 1], rd), rd, e);
    }
  }

  lemma OriginStep(srcs: seq<Option<string>>, pre: seq<Option<string>>, a: seq<Entry>, b: seq<Entry>, rd: Reader, e: Entry)
    requires |srcs| > 0 && pre == srcs[..|srcs| - 1] && b == SourceEntries(srcs[|srcs| - 1], rd)
    requires e in a <==> exists i | 0 <= i < |pre| :: e in SourceEntries(pre[i], rd)
    ensures e in a + b <==> exists i | 0 <= i < |srcs| :: e in SourceEntries(srcs[i], rd)
  {
    var n := |srcs|;
    if e in a {
      var i :| 0 <= i < |pre| && e in SourceEntries(pre[i], rd);
      assert pre[i] == srcs[i];
    }
    if i :| 0 <= i < n && e in SourceEntries(srcs[i], rd) {
      if i < n - 1 {
        assert pre[i] == srcs[i];
      }
    }
  }

  // ---------------------------------------------------------------------------
  // The reloaded store

  /**
   * After a full reload, the store's keys are exactly the ids of the records,
   * ordered by the first record of each id, and each id holds the record of
   * its last occurrence.
   */
  lemma ReloadContents(srcs: seq<Option<string>>, rd: Reader)
    ensures var d, es := Reload(srcs, rd), Entries(srcs, rd);
      && (forall k :: k in d.vals <==> k in Ids(es))
      && (forall k | k in d.vals :: k in Ids(es) && d.vals[k] == LastValue(es, k))
      && FirstOrdered(Ids(es), d.keys)
  {
    var es := Entries(srcs, rd);
    PutAllKeys(es);
    PutAllValues(es);
    PutAllOrder(es);
  }

  /** An id is in the reloaded store exactly when some parseable line of an available file carries it. */
  lemma ReloadKeys(srcs: seq<Option<string>>, rd: Reader, id: string)
    ensures id in Reload(srcs, rd).vals <==>
      exists i, rec | 0 <= i < |srcs| :: (id, rec) in SourceEntries(srcs[i], rd)
  {
    var es := Entries(srcs, rd);
    PutAllKeys(es);
    if id in Ids(es) {
      var t :| 0 <= t < |es| && Ids(es)[t] == id;
      EntriesOrigin(srcs, rd, es[t]);
    }
    if i, rec :| 0 <= i < |srcs| && (id, rec) in SourceEntries(srcs[i], rd) {
      EntriesOrigin(srcs, rd, (id, rec));
      var t :| 0 <= t < |es| && es[t] == (id, rec);
      assert Ids(es)[t] == id;
    }
  }

  // ---------------------------------------------------------------------------
  // The first record for an id

  /** The record of the first entry with key `id`, if any. */
  function FirstMatch(es: seq<Entry>, id: string): Option<UserRecord>
    decreases |es|
  {
    if es == [] then None
    else if es[0].0 == id then Some(es[0].1)
    else FirstMatch(es[1..], id)
  }

  /** `FirstMatch` finds the earliest entry with key `id`, and nothing when there is none. */
  lemma {:induction false} FirstMatchIsFirst(es: seq<Entry>, id: string)
    ensures FirstMatch(es, id).None? <==> forall t | 0 <= t < |es| :: es[t].0 != id
    ensures FirstMatch(es, id).Some? ==>
      exists i | 0 <= i < |es| :: es[i] == (id, FirstMatch(es, id).value) && forall t | 0 <= t < i :: es[t].0 != id
    decreases |es|
  {
    if es != [] && es[0].0 != id {
      var r := FirstMatch(es[1..], id);
      FirstMatchIsFirst(es[1..], id);
      if r.Some? {
        var i :| 0 <= i < |es| - 1 && es[1..][i] == (id, r.value) && forall t | 0 <= t < i :: es[1..][t].0 != id;
        assert es[i + 1] == (id, r.value);
        assert forall t | 0 <= t < i + 1 :: es[t].0 != id by {
          forall t | 0 <= t < i + 1
            ensures es[t].0 != id
          {
            if t > 0 {
              assert es[t] == es[1..][t - 1];
            }
          }
        }
      } else {
        assert forall t | 1 <= t < |es| :: es[t] == es[1..][t - 1];
      }
    }
  }

  lemma {:induction false} FirstMatchAppend(a: seq<Entry>, b: seq<Entry>, id: string)
    ensures FirstMatch(a + b, id) == if FirstMatch(a, id).Some? then FirstMatch(a, id) else FirstMatch(b, id)
    decreases |a|
  {
    if a == [] {
      assert a + b == b;
    } else {
      assert (a + b)[0] == a[0] && (a + b)[1..] == a[1..] + b;
      FirstMatchAppend(a[1..], b, id);
    }
  }
}
