/** The query dictionary: splitting a query into stanzas and stanzas into keys and values. */
module Query {
  import opened Text
  import opened Wrappers

  /** The pieces of s between occurrences of sep; always at least one piece. */
  function Split(s: string, sep: char): (pieces: seq<string>)
    ensures pieces != []
    decreases |s|
  {
    var n := Span(s, {sep});
    if n == |s| then [s] else [s[..n]] + Split(s[n + 1..], sep)
  }

  function Join(pieces: seq<string>, sep: char): string
    requires pieces != []
  {
    if |pieces| == 1 then pieces[0] else pieces[0] + [sep] + Join(pieces[1..], sep)
  }

  function Occurrences(s: string, c: char): nat {
    if s == "" then 0 else (if s[0] == c then 1 else 0) + Occurrences(s[1..], c)
  }

  /** Splitting loses nothing, leaves no separator behind and makes one piece more than separators. */
  lemma {:induction false} SplitIsExact(s: string, sep: char)
    ensures Join(Split(s, sep), sep) == s
    ensures forall i :: 0 <= i < |Split(s, sep)| ==> sep !in Split(s, sep)[i]
    ensures |Split(s, sep)| == Occurrences(s, sep) + 1
    decreases |s|
  {
    var n := Span(s, {sep});
    SpanIsFree(s, {sep});
    NoOccurrence(s[..n], sep);
    if n == |s| {
      assert s[..n] == s;
    } else {
      SplitIsExact(s[n + 1..], sep);
      CutAround(s, n);
      OccurrencesOfConcat(s[..n], [sep] + s[n + 1..], sep);
      assert Split(s, sep)[1..] == Split(s[n + 1..], sep);
      assert s[..n] + [sep] + s[n + 1..] == s[..n] + ([sep] + s[n + 1..]);
    }
  }

  lemma {:induction false} NoOccurrence(s: string, c: char)
    requires FreeOf(s, {c})
    ensures Occurrences(s, c) == 0 && c !in s
  {
    if s != "" {
      assert s[0] !in {c};
      NoOccurrence(s[1..], c);
    }
  }

  lemma {:induction false} OccurrencesOfConcat(s: string, t: string, c: char)
    ensures Occurrences(s + t, c) == Occurrences(s, c) + Occurrences(t, c)
  {
    if s == "" {
      assert s + t == t;
    } else {
      OccurrencesOfConcat(s[1..], t, c);
      assert (s + t)[1..] == s[1..] + t;
    }
  }

  datatype Entry = Entry(key: string, value: string)

  /** A stanza is cut at its first '='; without one it is a key with an empty value. */
  function EntryOf(stanza: string): Entry {
    var n := Span(stanza, {'='});
    Entry(stanza[..n], if n == |stanza| then "" else stanza[n + 1..])
  }

  /** The entries of the stanzas of a query; an empty query has none. */
  function Entries(query: string, sep: char): seq<Entry> {
    if query == "" then [] else EntriesOf(Split(query, sep))
  }

  function EntriesOf(stanzas: seq<string>): (entries: seq<Entry>)
    ensures |entries| == |stanzas|
    ensures forall i :: 0 <= i < |stanzas| ==> entries[i] == EntryOf(stanzas[i])
  {
    if stanzas == [] then [] else [EntryOf(stanzas[0])] + EntriesOf(stanzas[1..])
  }

  ghost predicate DistinctKeys(entries: seq<Entry>) {
    forall i, j :: 0 <= i < j < |entries| ==> entries[i].key != entries[j].key
  }

  ghost function KeySet(entries: seq<Entry>): set<string> {
    set e | e in entries :: e.key
  }

  /** dict holds exactly these entries. */
  ghost predicate IsDictionary(dict: map<string, string>, entries: seq<Entry>) {
    && dict.Keys == KeySet(entries)
    && (forall e :: e in entries ==> dict[e.key] == e.value)
    && |dict| == |entries|
  }

  /** Enters the entries in order; nothing when a key is there already. */
  function Collect(entries: seq<Entry>): Option<map<string, string>> {
    if entries == [] then Some(map[])
    else
      var last := entries[|entries| - 1];
      match Collect(entries[..|entries| - 1])
      case None => None
      case Some(dict) => if last.key in dict then None else Some(dict[last.key := last.value])
  }

  /** The dictionary of a query, unless two stanzas share a key. */
  function Build(query: string, sep: char): Option<map<string, string>> {
    Collect(Entries(query, sep))
  }

  lemma {:induction false} CollectIsExact(entries: seq<Entry>)
    ensures Collect(entries).Some? <==> DistinctKeys(entries)
    ensures Collect(entries).Some? ==> IsDictionary(Collect(entries).value, entries)
  {
    if entries != [] {
      var n := |entries| - 1;
      var front, last := entries[..n], entries[n];
      assert entries == front + [last];
      CollectIsExact(front);
      if Collect(front).None? {
        var i, j :| 0 <= i < j < n && front[i].key == front[j].key;
        assert entries[i] == front[i] && entries[j] == front[j];
      } else {
        DistinctSnoc(front, last);
        if last.key !in Collect(front).value {
          DictionarySnoc(Collect(front).value, front, last);
        }
      }
    }
  }

  lemma DistinctSnoc(front: seq<Entry>, last: Entry)
    requires DistinctKeys(front)
    ensures DistinctKeys(front + [last]) <==> last.key !in KeySet(front)
  {
    var all := front + [last];
    if last.key in KeySet(front) {
      var e :| e in front && e.key == last.key;
      var i :| 0 <= i < |front| && front[i] == e;
      assert all[i].key == all[|front|].key;
    } else {
      forall i, j | 0 <= i < j < |all|
        ensures all[i].key != all[j].key
      {
        assert all[i] == front[i] && front[i] in front;
      }
    }
  }

  lemma KeySetSnoc(front: seq<Entry>, last: Entry)
    ensures KeySet(front + [last]) == KeySet(front) + {last.key}
  {
    var all := front + [last];
    assert forall e :: e in all <==> e in front || e == last;
  }

  lemma DictionarySnoc(d: map<string, string>, front: seq<Entry>, last: Entry)
    requires IsDictionary(d, front) && last.key !in d
    ensures IsDictionary(d[last.key := last.value], front + [last])
  {
    var next, all := d[last.key := last.value], front + [last];
    KeySetSnoc(front, last);
    assert next.Keys == d.Keys + {last.key};
    forall e | e in all
      ensures e.key in next && next[e.key] == e.value
    {
      if e in front {
        assert e.key in KeySet(front);
      }
    }
  }

  lemma CollectNothing()
    ensures Collect([]) == Some(map[])
  {
  }

  /** Collecting one entry more. */
  lemma CollectStep(entries: seq<Entry>, i: nat)
    requires i < |entries|
    ensures Collect(entries[..i + 1]) ==
            match Collect(entries[..i])
            case None => None
            case Some(dict) =>
              if entries[i].key in dict then None else Some(dict[entries[i].key := entries[i].value])
  {
    assert entries[..i + 1][..i] == entries[..i];
  }

  /** A prefix that cannot be collected spoils the whole. */
  lemma {:induction false} CollectPrefix(entries: seq<Entry>, n: nat)
    requires n <= |entries| && Collect(entries[..n]).None?
    ensures Collect(entries).None?
    decreases |entries|
  {
    if n < |entries| {
      assert entries[..|entries| - 1][..n] == entries[..n];
      CollectPrefix(entries[..|entries| - 1], n);
    } else {
      assert entries[..n] == entries;
    }
  }

  /** A query is accepted exactly when no two stanzas share a key; then the dictionary
      is the map of the stanzas, with one more entry than there are separators. */
  lemma BuildIsExact(query: string, sep: char)
    ensures Build(query, sep).Some? <==> DistinctKeys(Entries(query, sep))
    ensures Build(query, sep).Some? ==>
              && IsDictionary(Build(query, sep).value, Entries(query, sep))
              && (query != "" ==> |Build(query, sep).value| == Occurrences(query, sep) + 1)
  {
    CollectIsExact(Entries(query, sep));
    SplitIsExact(query, sep);
  }

  // ---- What a dictionary says about the stanzas, and the stanzas about the dictionary ----

  /** The stanza is k alone, or k, '=' and a value. */
  ghost predicate Gives(stanza: string, k: string) {
    '=' !in k && (stanza == k || (|stanza| > |k| && stanza[..|k|] == k && stanza[|k|] == '='))
  }

  lemma EntryIs(stanza: string)
    ensures var e := EntryOf(stanza);
            '=' !in e.key && ((stanza == e.key && e.value == "") || stanza == e.key + "=" + e.value)
  {
    SpanIsFree(stanza, {'='});
    var n := Span(stanza, {'='});
    if n < |stanza| {
      CutAround(stanza, n);
      assert stanza[..n] + ("=" + stanza[n + 1..]) == stanza[..n] + "=" + stanza[n + 1..];
    } else {
      assert stanza[..n] == stanza;
    }
  }

  lemma KeyWithValue(k: string, v: string)
    requires '=' !in k
    ensures EntryOf(k + "=" + v) == Entry(k, v)
  {
    SpanOfPrefix(k, "=" + v, {'='});
    assert k + "=" + v == k + ("=" + v);
    assert (k + "=" + v)[|k| + 1..] == v;
  }

  lemma KeyAlone(k: string)
    requires '=' !in k
    ensures EntryOf(k) == Entry(k, "")
  {
    SpanOfAll(k, {'='});
    assert k[..|k|] == k;
  }

  lemma GivesIff(stanza: string, k: string)
    requires '=' !in k
    ensures Gives(stanza, k) <==> EntryOf(stanza).key == k
  {
    EntryIs(stanza);
    if Gives(stanza, k) {
      if stanza == k {
        KeyAlone(k);
      } else {
        KeyWithValue(k, stanza[|k| + 1..]);
        CutAround(stanza, |k|);
        assert k + "=" + stanza[|k| + 1..] == k + ("=" + stanza[|k| + 1..]);
      }
    }
  }

  lemma EntryOfStanza(query: string, sep: char, i: nat)
    requires query != "" && i < |Split(query, sep)|
    ensures |Entries(query, sep)| == |Split(query, sep)| && Entries(query, sep)[i] == EntryOf(Split(query, sep)[i])
    ensures Entries(query, sep)[i] in Entries(query, sep)
  {
  }

  /** In the dictionary of a query every stanza k=v gives k the value v, and every stanza k without '=' an empty one. */
  lemma StanzaIsEntered(query: string, sep: char, k: string, v: string)
    requires query != "" && Build(query, sep).Some? && '=' !in k
    ensures k + "=" + v in Split(query, sep) ==> k in Build(query, sep).value && Build(query, sep).value[k] == v
    ensures k in Split(query, sep) ==> k in Build(query, sep).value && Build(query, sep).value[k] == ""
  {
    hide Build, Entries, EntryOf, Split;
    BuildIsExact(query, sep);
    KeyWithValue(k, v);
    KeyAlone(k);
    var stanzas := Split(query, sep);
    if k + "=" + v in stanzas {
      var i :| 0 <= i < |stanzas| && stanzas[i] == k + "=" + v;
      EntryOfStanza(query, sep, i);
      assert Entry(k, v).key in KeySet(Entries(query, sep));
    }
    if k in stanzas {
      var i :| 0 <= i < |stanzas| && stanzas[i] == k;
      EntryOfStanza(query, sep, i);
      assert Entry(k, "").key in KeySet(Entries(query, sep));
    }
  }

  /** Every key of the dictionary comes from such a stanza. */
  lemma KeyComesFromStanza(query: string, sep: char, k: string)
    requires Build(query, sep).Some? && k in Build(query, sep).value
    ensures query != "" && '=' !in k
    ensures var v := Build(query, sep).value[k];
            k + "=" + v in Split(query, sep) || (v == "" && k in Split(query, sep))
  {
    hide Build, EntryOf, Split;
    BuildIsExact(query, sep);
    var entries := Entries(query, sep);
    assert k in KeySet(entries);
    var e :| e in entries && e.key == k;
    var i :| 0 <= i < |entries| && entries[i] == e;
    EntryOfStanza(query, sep, i);
    EntryIs(Split(query, sep)[i]);
  }

  /** A query is refused exactly when two of its stanzas give the same key. */
  lemma RefusedIff(query: string, sep: char)
    requires query != ""
    ensures Build(query, sep).None?
            <==> exists i, j, k :: 0 <= i < j < |Split(query, sep)|
                                   && Gives(Split(query, sep)[i], k) && Gives(Split(query, sep)[j], k)
  {
    hide Build, Entries, EntryOf, Split, Gives;
    BuildIsExact(query, sep);
    var stanzas, entries := Split(query, sep), Entries(query, sep);
    EntryOfStanza(query, sep, 0);
    if Build(query, sep).None? {
      var i, j :| 0 <= i < j < |entries| && entries[i].key == entries[j].key;
      EntryOfStanza(query, sep, i);
      EntryOfStanza(query, sep, j);
      EntryIs(stanzas[i]);
      GivesIff(stanzas[i], entries[i].key);
      GivesIff(stanzas[j], entries[i].key);
    }
    forall i: nat, j: nat, k: string | i < j < |stanzas| && Gives(stanzas[i], k) && Gives(stanzas[j], k)
      ensures Build(query, sep).None?
    {
      EntryOfStanza(query, sep, i);
      EntryOfStanza(query, sep, j);
      KeyIsPlain(stanzas[i], k);
      GivesIff(stanzas[i], k);
      GivesIff(stanzas[j], k);
    }
  }

  lemma KeyIsPlain(stanza: string, k: string)
    requires Gives(stanza, k)
    ensures '=' !in k
  {
  }
}
