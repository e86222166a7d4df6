/**
  The journal: entries kept as one JSON array under the store key
  `afterJournal`, at most one entry per date, listed newest date first.

  JSON text is not modelled: the slot holds either nothing, text that does
  not parse, or a parsed document, which is an array of entries or some
  other JSON value.
 */
module Journal {
  import opened Wrappers
  import opened JsValues

  /** The number of entries the list shows. */
  const MaxShown := 200

  /** The number of characters of an entry's first line the list shows. */
  const PreviewWidth := 80

  datatype Entry = Entry(date: string, text: string)

  /** A parsed JSON document: an array of entries or anything else (an
      object, a string, a number, `null`). */
  datatype Json = JArray(entries: seq<Entry>) | JOther

  /** What `localStorage.getItem("afterJournal")` holds. `Absent` covers both
      a missing key and the empty string, which `raw || "[]"` treats alike. */
  datatype Slot = Absent | Corrupt | Holds(doc: Json)

  /* ----- reading and writing the slot ----- */

  /** `getJournal()`: the stored array, or `[]` when there is none, it does
      not parse, or it is not an array. */
  function GetJournal(slot: Slot): (es: seq<Entry>)
    ensures slot.Holds? && slot.doc.JArray? ==> es == slot.doc.entries
    ensures !(slot.Holds? && slot.doc.JArray?) ==> es == []
  {
    match slot
    case Holds(JArray(entries)) => entries
    case _ => []
  }

  /** `saveJournal(arr)`: a non-array is replaced by `[]`; the result says
      whether the write succeeded, which is up to the store (`writable`). */
  function SaveJournal(slot: Slot, doc: Json, writable: bool): (r: (bool, Slot))
    ensures r.0 == writable
    ensures !writable ==> r.1 == slot
    ensures writable ==> r.1.Holds? && r.1.doc.JArray?
  {
    if !writable then (false, slot)
    else if doc.JArray? then (true, Holds(doc))
    else (true, Holds(JArray([])))
  }

  /** What `saveJournal` writes is what `getJournal` then reads. */
  lemma SaveThenGet(slot: Slot, doc: Json)
    ensures GetJournal(SaveJournal(slot, doc, true).1) == (if doc.JArray? then doc.entries else [])
  {
  }

  /* ----- saving an entry ----- */

  /** The entries whose date differs from `date`, in their order
      (`arr.filter(e => e.date !== date)`). */
  function Without(es: seq<Entry>, date: string): (r: seq<Entry>)
    ensures forall i :: 0 <= i < |r| ==> r[i].date != date
    ensures forall e :: e in r <==> e in es && e.date != date
    ensures |r| <= |es|
  {
    if |es| == 0 then []
    else if es[0].date == date then Without(es[1..], date)
    else [es[0]] + Without(es[1..], date)
  }

  /** How a press of the Save button ends. `Rejected` is the "Cannot save
      empty entry." message; `Crashed` is the exception `arr.filter` throws
      when the stored document parses to something that is not an array. */
  datatype SaveOutcome = Rejected | Saved(slot: Slot) | Crashed

  /** `saveBtn.onclick`: trim the text, refuse an empty date or text, drop
      the stored entry for the date, append the new one, store the array.
      Text that does not parse counts as an empty journal. */
  function SaveEntry(slot: Slot, date: string, rawText: string): (o: SaveOutcome)
    ensures o.Rejected? <==> date == "" || AllSpace(rawText)
    ensures o.Crashed? <==> !o.Rejected? && slot == Holds(JOther)
    ensures o.Saved? ==> o.slot.Holds? && o.slot.doc.JArray?
  {
    var text := Trim(rawText);
    if date == "" || text == "" then Rejected
    else
      match slot
      case Holds(JOther) => Crashed
      case _ =>
        var es := GetJournal(slot);
        Saved(Holds(JArray(Without(es, date) + [Entry(date, text)])))
  }

  /** After a save the journal holds exactly one entry for the date, the
      new one with the trimmed text, at the end; every entry for another
      date is kept, in its order. */
  lemma SaveEntryReplaces(slot: Slot, date: string, rawText: string)
    requires SaveEntry(slot, date, rawText).Saved?
    ensures var es := GetJournal(SaveEntry(slot, date, rawText).slot);
      && |es| > 0
      && es[|es| - 1] == Entry(date, Trim(rawText))
      && (forall i :: 0 <= i < |es| - 1 ==> es[i].date != date)
      && es[..|es| - 1] == Without(GetJournal(slot), date)
  {
    var es := GetJournal(SaveEntry(slot, date, rawText).slot);
    assert es[..|es| - 1] == Without(GetJournal(slot), date);
  }

  lemma {:induction false} WithoutIdempotent(es: seq<Entry>, date: string)
    ensures Without(Without(es, date), date) == Without(es, date)
    decreases |es|
  {
    if |es| > 0 {
      WithoutIdempotent(es[1..], date);
      if es[0].date != date {
        assert ([es[0]] + Without(es[1..], date))[1..] == Without(es[1..], date);
      }
    }
  }

  lemma {:induction false} WithoutAppend(a: seq<Entry>, b: seq<Entry>, date: string)
    ensures Without(a + b, date) == Without(a, date) + Without(b, date)
    decreases |a|
  {
    if |a| == 0 {
      assert a + b == b;
    } else {
      assert (a + b)[1..] == a[1..] + b;
      WithoutAppend(a[1..], b, date);
    }
  }

  /** Saving the same day twice keeps only the second text: the second save
      ends as if the first had never happened. */
  lemma SaveEntryOverwrites(slot: Slot, date: string, t1: string, t2: string)
    requires SaveEntry(slot, date, t1).Saved?
    requires !AllSpace(t2)
    ensures SaveEntry(SaveEntry(slot, date, t1).slot, date, t2) == SaveEntry(slot, date, t2)
  {
    var es := GetJournal(slot);
    WithoutAppend(Without(es, date), [Entry(date, Trim(t1))], date);
    WithoutIdempotent(es, date);
    assert Without([Entry(date, Trim(t1))], date) == [];
  }

  /** Saving the same entry again changes nothing. */
  lemma SaveEntryIdempotent(slot: Slot, date: string, text: string)
    requires SaveEntry(slot, date, text).Saved?
    ensures SaveEntry(SaveEntry(slot, date, text).slot, date, text) == SaveEntry(slot, date, text)
  {
    SaveEntryOverwrites(slot, date, text, text);
  }

  /* ----- ordering by date ----- */

  /** Lexicographic order of strings by character code: the order
      `b.date.localeCompare(a.date)` follows for ISO dates. */
  predicate LexLe(a: string, b: string)
    decreases |a|
  {
    |a| == 0 || (|b| > 0 && (a[0] < b[0] || (a[0] == b[0] && LexLe(a[1..], b[1..]))))
  }

  lemma {:induction false} LexLeTotal(a: string, b: string)
    ensures LexLe(a, b) || LexLe(b, a)
    decreases |a|
  {
    if |a| > 0 && |b| > 0 && a[0] == b[0] {
      LexLeTotal(a[1..], b[1..]);
    }
  }

  lemma {:induction false} LexLeTrans(a: string, b: string, c: string)
    requires LexLe(a, b) && LexLe(b, c)
    ensures LexLe(a, c)
    decreases |a|
  {
    if |a| > 0 && a[0] == b[0] && b[0] == c[0] {
      LexLeTrans(a[1..], b[1..], c[1..]);
    }
  }

  lemma {:induction false} LexLeAntisymmetric(a: string, b: string)
    requires LexLe(a, b) && LexLe(b, a)
    ensures a == b
    decreases |a|
  {
    if |a| > 0 {
      LexLeAntisymmetric(a[1..], b[1..]);
      assert a == [a[0]] + a[1..];
      assert b == [b[0]] + b[1..];
    }
  }

  /** Newest date first. */
  predicate NewestFirst(es: seq<Entry>) {
    forall i, j :: 0 <= i < j < |es| ==> LexLe(es[j].date, es[i].date)
  }

  /** Puts `e` into a newest-first list after every entry whose date is not
      older than its own, so entries with equal dates keep their order. */
  function Insert(e: Entry, s: seq<Entry>): (r: seq<Entry>)
    requires NewestFirst(s)
    ensures NewestFirst(r)
    ensures multiset(r) == multiset(s) + multiset{e}
    decreases |s|
  {
    if |s| == 0 then [e]
    else if LexLe(s[0].date, e.date) && s[0].date != e.date then
      InsertFront(e, s);
      [e] + s
    else
      LexLeTotal(s[0].date, e.date);
      var rest := Insert(e, s[1..]);
      InsertBehind(e, s, rest);
      assert s == [s[0]] + s[1..];
      [s[0]] + rest
  }

  lemma InsertFront(e: Entry, s: seq<Entry>)
    requires NewestFirst(s) && |s| > 0 && LexLe(s[0].date, e.date)
    ensures NewestFirst([e] + s)
  {
    forall j | 1 <= j < |s| + 1 ensures LexLe(([e] + s)[j].date, e.date) {
      if j > 1 {
        LexLeTrans(s[j - 1].date, s[0].date, e.date);
      }
    }
  }

  lemma InsertBehind(e: Entry, s: seq<Entry>, rest: seq<Entry>)
    requires NewestFirst(s) && |s| > 0 && LexLe(e.date, s[0].date)
    requires NewestFirst(rest) && multiset(rest) == multiset(s[1..]) + multiset{e}
    ensures NewestFirst([s[0]] + rest)
  {
    forall j | 0 <= j < |rest| ensures LexLe(rest[j].date, s[0].date) {
      assert rest[j] in multiset(rest);
      if rest[j] != e {
        assert rest[j] in multiset(s[1..]);
        var k :| 1 <= k < |s| && s[k] == rest[j] by {
          assert rest[j] in s[1..];
        }
      }
    }
  }

  /** `arr.sort((a, b) => b.date.localeCompare(a.date))`: a stable sort,
      newest date first. */
  function SortNewestFirst(s: seq<Entry>): (r: seq<Entry>)
    ensures NewestFirst(r)
    ensures multiset(r) == multiset(s)
    decreases |s|
  {
    if |s| == 0 then []
    else
      assert s == s[..|s| - 1] + [s[|s| - 1]];
      Insert(s[|s| - 1], SortNewestFirst(s[..|s| - 1]))
  }

  /* ----- the list view ----- */

  /** `text.split("\n")[0]`: the text up to its first line break. */
  function FirstLine(text: string): (r: string)
    ensures r <= text
    ensures '\n' !in r
    ensures r == text || text[|r|] == '\n'
  {
    if |text| == 0 || text[0] == '\n' then ""
    else [text[0]] + FirstLine(text[1..])
  }

  /** `firstLine.slice(0, 80)`: at most `PreviewWidth` characters of the
      first line, as many as there are up to that width. */
  function Excerpt(text: string): (r: string)
    ensures r <= FirstLine(text) && r <= text
    ensures |r| <= PreviewWidth && '\n' !in r
    ensures |r| == PreviewWidth || r == FirstLine(text)
  {
    var line := FirstLine(text);
    if |line| <= PreviewWidth then line else line[..PreviewWidth]
  }

  /** The shown part of an entry: its excerpt, followed by `...` exactly
      when the whole text (not just its first line) is longer than
      `PreviewWidth`. */
  function Preview(text: string): (r: string)
    ensures Excerpt(text) <= r
    ensures |text| > PreviewWidth <==> r == Excerpt(text) + "..."
    ensures |text| <= PreviewWidth <==> r == Excerpt(text)
  {
    Excerpt(text) + (if |text| > PreviewWidth then "..." else "")
  }

  /** A short one-line text is shown whole. */
  lemma ShortTextPreviewsAsItself(text: string)
    requires |text| <= PreviewWidth && '\n' !in text
    ensures Preview(text) == text
  {
    FirstLineOfOneLine(text);
  }

  lemma {:induction false} FirstLineOfOneLine(text: string)
    requires '\n' !in text
    ensures FirstLine(text) == text
    decreases |text|
  {
    if |text| > 0 {
      assert text[1..] <= text[1..];
      assert '\n' !in text[1..] by {
        forall c | c in text[1..] ensures c in text {
          var k :| 0 <= k < |text[1..]| && text[1..][k] == c;
          assert text[k + 1] == c;
        }
      }
      FirstLineOfOneLine(text[1..]);
      assert text == [text[0]] + text[1..];
    }
  }

  datatype Row = Row(date: string, preview: string)

  /** The list: the "No journal entries yet." notice or the rows. */
  datatype ListView = NoEntries | Rows(rows: seq<Row>)

  function Min(a: nat, b: nat): nat {
    if a <= b then a else b
  }

  /** The entries the list shows: the newest `MaxShown` of the journal,
      newest first. Every entry left out is no newer than any shown one. */
  function Shown(es: seq<Entry>): (shown: seq<Entry>)
    ensures |shown| == Min(|es|, MaxShown)
    ensures NewestFirst(shown)
    ensures multiset(shown) <= multiset(es)
    ensures forall e, i :: e in multiset(es) - multiset(shown) && 0 <= i < |shown| ==> LexLe(e.date, shown[i].date)
  {
    var sorted := SortNewestFirst(es);
    assert |sorted| == |multiset(sorted)| == |multiset(es)| == |es|;
    var n := Min(|sorted|, MaxShown);
    ShownPrefix(sorted, n);
    sorted[..n]
  }

  lemma ShownPrefix(sorted: seq<Entry>, n: nat)
    requires NewestFirst(sorted) && n <= |sorted|
    ensures NewestFirst(sorted[..n])
    ensures multiset(sorted[..n]) <= multiset(sorted)
    ensures forall e, i :: e in multiset(sorted) - multiset(sorted[..n]) && 0 <= i < n ==> LexLe(e.date, sorted[i].date)
  {
    assert sorted == sorted[..n] + sorted[n..];
    forall e, i | e in multiset(sorted) - multiset(sorted[..n]) && 0 <= i < n
      ensures LexLe(e.date, sorted[i].date)
    {
      assert e in multiset(sorted[n..]);
      var k :| n <= k < |sorted| && sorted[k] == e by {
        assert e in sorted[n..];
      }
    }
  }

  /** `renderJournalList()`: the journal read as `getJournal` reads it, one
      row per shown entry, with its date and preview. */
  function RenderList(slot: Slot): (v: ListView)
    ensures v.NoEntries? <==> GetJournal(slot) == []
    ensures v.Rows? ==> |v.rows| == |Shown(GetJournal(slot))|
    ensures v.Rows? ==> forall i :: 0 <= i < |v.rows| ==>
      v.rows[i] == Row(Shown(GetJournal(slot))[i].date, Preview(Shown(GetJournal(slot))[i].text))
  {
    var shown := Shown(GetJournal(slot));
    if |shown| == 0 then NoEntries
    else Rows(seq(|shown|, i requires 0 <= i < |shown| => Row(shown[i].date, Preview(shown[i].text))))
  }

  /** An entry saved into a journal of fewer than `MaxShown` entries is
      listed, with its date and the preview of its trimmed text. */
  lemma SavedEntryIsListed(slot: Slot, date: string, rawText: string)
    requires date != "" && !AllSpace(rawText) && slot != Holds(JOther)
    requires |GetJournal(slot)| < MaxShown
    ensures var v := RenderList(SaveEntry(slot, date, rawText).slot);
      v.Rows? && Row(date, Preview(Trim(rawText))) in v.rows
  {
    var es := GetJournal(SaveEntry(slot, date, rawText).slot);
    var e := Entry(date, Trim(rawText));
    SaveEntryReplaces(slot, date, rawText);
    assert e == es[|es| - 1];
    var shown := Shown(es);
    assert |shown| == |es|;
    assert multiset(shown) == multiset(es) by {
      assert multiset(es) - multiset(shown) == multiset{} by {
        assert |multiset(es) - multiset(shown)| == |multiset(es)| - |multiset(shown)|;
      }
    }
    assert e in multiset(shown);
    var i :| 0 <= i < |shown| && shown[i] == e;
    assert RenderList(SaveEntry(slot, date, rawText).slot).rows[i] == Row(date, Preview(Trim(rawText)));
  }
}
