/** The log-structured store: an index over an append-only file, with replay and compaction. */
module LogStore {
  import opened Prelude
  import opened LogRecords

  /** Files up to this size are never compacted. */
  const MIN_COMPACT: nat := 4096

  // ---------------------------------------------------------------- histories

  /** The file's records are what the last compaction wrote (the first `base`), then the latest
      of the writes made since the store was opened, the file's own records counting first. */
  ghost predicate Traces(log: seq<Record>, base: nat, writes: seq<Record>) {
    && base <= |log| && |log| - base <= |writes|
    && var m := |writes| - (|log| - base);
       log[base..] == writes[m..] && Contents(log[..base]) == Contents(writes[..m])
  }

  /** The file's contents are those of all the writes, and so for every record past the
      compaction. */
  lemma TracesContents(log: seq<Record>, base: nat, writes: seq<Record>, k: nat)
    requires Traces(log, base, writes) && base <= k <= |log|
    ensures Contents(log[..k]) == Contents(writes[..|writes| - |log| + k])
  {
    hide Contents;
    var m := |writes| - (|log| - base);
    var tail := log[base..k];
    assert tail == log[base..][..k - base] == writes[m..][..k - base] == writes[m..m + k - base];
    assert log[..base] + tail == log[..k] && writes[..m] + tail == writes[..m + k - base];
    ContentsJoin(log[..base], tail);
    ContentsJoin(writes[..m], tail);
  }

  lemma TracesAll(log: seq<Record>, base: nat, writes: seq<Record>)
    requires Traces(log, base, writes)
    ensures Contents(log) == Contents(writes)
  {
    hide Contents;
    TracesContents(log, base, writes, |log|);
    assert log[..|log|] == log && writes[..|writes|] == writes;
  }

  lemma TracesWrite(log: seq<Record>, base: nat, writes: seq<Record>, r: Record)
    requires Traces(log, base, writes)
    ensures Traces(log + [r], base, writes + [r])
  {
    hide Contents;
    var m := |writes| - (|log| - base);
    assert (log + [r])[base..] == log[base..] + [r] && (writes + [r])[m..] == writes[m..] + [r];
    assert (log + [r])[..base] == log[..base] && (writes + [r])[..m] == writes[..m];
  }

  lemma TracesCompacted(log: seq<Record>, writes: seq<Record>)
    requires Contents(log) == Contents(writes)
    ensures Traces(log, |log|, writes)
  {
    hide Contents;
    assert log[..|log|] == log && writes[..|writes|] == writes && log[|log|..] == writes[|writes|..];
  }

  lemma {:induction false} WholeAtLeast(log: seq<Record>, b: nat, n: nat)
    requires b <= |log| && |EncodeAll(log[..b])| <= n
    ensures b <= Whole(log, n)
  {
    hide Encode;
    if b > 0 {
      assert log[..b][1..] == log[1..][..b - 1];
      WholeAtLeast(log[1..], b - 1, n - |Encode(log[0])|);
    }
  }

  /** A file cut anywhere past its last compaction reopens as the state after some prefix of
      the writes. */
  lemma CrashCut(log: seq<Record>, base: nat, writes: seq<Record>, n: nat)
    requires AllEncodable(log) && Traces(log, base, writes) && |EncodeAll(log[..base])| <= n <= |EncodeAll(log)|
    ensures var m := |writes| - |log| + Whole(log, n);
            && |writes| - (|log| - base) <= m <= |writes|
            && Contents(Parse(EncodeAll(log)[..n])) == Contents(writes[..m])
  {
    hide Contents, Traces, EncodeAll, Parse, Whole;
    TracesBase(log, base, writes);
    WholeAtLeast(log, base, n);
    ParseCut(log, n);
    TracesContents(log, base, writes, Whole(log, n));
  }

  lemma TracesBase(log: seq<Record>, base: nat, writes: seq<Record>)
    requires Traces(log, base, writes)
    ensures base <= |log| && |log| - base <= |writes|
  {
  }

  lemma {:induction false} WholeAll(log: seq<Record>)
    ensures Whole(log, |EncodeAll(log)|) == |log|
  {
    if log != [] {
      WholeAll(log[1..]);
    }
  }

  /** Replaying an uncut file reads back exactly the records in it. */
  lemma Reopens(log: seq<Record>)
    requires AllEncodable(log)
    ensures Parse(EncodeAll(log)) == log
  {
    hide Encode, EncodeAll, Parse, Whole, Encodable;
    ParseCut(log, |EncodeAll(log)|);
    WholeAll(log);
    assert EncodeAll(log)[..|EncodeAll(log)|] == EncodeAll(log) && log[..|log|] == log;
  }

  // ---------------------------------------------------------------- compaction

  ghost predicate DistinctKeys(log: seq<Record>) {
    forall i, j :: 0 <= i < j < |log| ==> log[i].key != log[j].key
  }

  lemma {:induction false} ContentsKeys(log: seq<Record>, k: nat)
    requires k in Contents(log)
    ensures exists i :: 0 <= i < |log| && log[i].key == k && log[i].kind == KIND_PUT && log[i].value == Contents(log)[k]
  {
    var m := |log| - 1;
    if log[m].kind == KIND_PUT && log[m].key == k {
      assert log[m].value == Contents(log)[k];
    } else {
      ContentsKeys(log[..m], k);
      var i :| 0 <= i < m && log[..m][i].key == k && log[..m][i].kind == KIND_PUT && log[..m][i].value == Contents(log[..m])[k];
      assert log[i].key == k;
    }
  }

  /** Every key and value fits its field. */
  ghost predicate Storable(m: map<nat, Bytes>) {
    forall k :: k in m ==> k < Pow256(8) && |m[k]| < Pow256(4)
  }

  /** Whatever a log holds can be encoded again. */
  lemma LiveStorable(log: seq<Record>)
    requires AllEncodable(log)
    ensures Storable(Contents(log))
  {
    hide Contents;
    forall k | k in Contents(log)
      ensures k < Pow256(8) && |Contents(log)[k]| < Pow256(4)
    {
      ContentsKeys(log, k);
    }
  }

  lemma StorePut(file: Bytes, index: map<nat, Slot>, m: map<nat, Bytes>, key: nat, value: Bytes)
    requires Indexes(file, index, m) && Storable(m) && key < Pow256(8)
    ensures var rec := Encode(Record(key, KIND_PUT, value));
            Indexes(file + rec, index[key := Slot(|file| + HDR, |Kept(value)|)], m[key := Kept(value)])
            && Storable(m[key := Kept(value)])
  {
    hide Encode, Pow256, Kept;
    var rec := Encode(Record(key, KIND_PUT, value));
    IndexesMore(file, rec, index, m);
    StoredValue(file, key, value);
  }

  /** The bytes a put leaves where its slot points. */
  lemma StoredValue(file: Bytes, key: nat, value: Bytes)
    ensures var all, off := file + Encode(Record(key, KIND_PUT, value)), |file| + HDR;
            off + |Kept(value)| <= |all| && all[off..off + |Kept(value)|] == Kept(value) && |Kept(value)| < Pow256(4)
  {
    hide Encode, Pow256;
    var rec, len := Encode(Record(key, KIND_PUT, value)), |value| % Pow256(4);
    EncodeFields(Record(key, KIND_PUT, value), []);
    assert rec + [] == rec;
    assert rec[HDR..HDR + |value|] == value;
    assert rec[HDR..HDR + len] == value[..len];
    assert (file + rec)[|file| + HDR..|file| + HDR + len] == rec[HDR..HDR + len];
  }

  lemma StoreDelete(file: Bytes, more: Bytes, index: map<nat, Slot>, m: map<nat, Bytes>, key: nat)
    requires Indexes(file, index, m) && Storable(m)
    ensures Indexes(file + more, index - {key}, m - {key}) && Storable(m - {key})
  {
    IndexesMore(file, more, index, m);
  }

  /** The live records collected so far: one put for each key done. */
  ghost predicate Collected(live: seq<Record>, m: map<nat, Bytes>, todo: set<nat>) {
    && DistinctKeys(live) && Clean(live)
    && (forall i :: 0 <= i < |live| ==> live[i].kind == KIND_PUT && live[i].key !in todo)
    && Contents(live) == m - todo
  }

  lemma CollectStep(live: seq<Record>, m: map<nat, Bytes>, todo: set<nat>, k: nat)
    requires Collected(live, m, todo) && k in todo && k in m && Encodable(Record(k, KIND_PUT, m[k]))
    ensures Collected(live + [Record(k, KIND_PUT, m[k])], m, todo - {k})
  {
    hide Encodable;
    var r := Record(k, KIND_PUT, m[k]);
    var next := live + [r];
    assert next[..|live|] == live;
    assert Contents(next) == Contents(live)[k := m[k]];
    assert (m - todo)[k := m[k]] == m - (todo - {k});
  }

  /** Writing distinct puts leaves nothing dead. */
  lemma FreshStep(live: seq<Record>, i: nat)
    requires DistinctKeys(live) && i < |live| && live[i].kind == KIND_PUT && Replay(live[..i]).dead == 0
    ensures live[i].key !in Replay(live[..i]).index
    ensures EncodeAll(live[..i + 1]) == EncodeAll(live[..i]) + Encode(live[i])
    ensures var st := Replay(live[..i]);
            Replay(live[..i + 1]) == Replayed(st.index[live[i].key := Slot(st.end + HDR, |live[i].value|)], 0, st.end + HDR + |live[i].value|)
  {
    hide Contents, Encode, EncodeAll, Replay;
    assert live[..i + 1] == live[..i] + [live[i]];
    EncodeLast(live[..i], live[i]);
    ReplayLast(live[..i], live[i]);
    SameLens(live[..i]);
    if live[i].key in Contents(live[..i]) {
      ContentsKeys(live[..i], live[i].key);
    }
  }

  // ---------------------------------------------------------------- the store

  class LogStore {
    var file: Bytes
    var index: map<nat, Slot>
    var end: nat
    var dead: nat
    ghost var log: seq<Record>
    ghost var base: nat
    ghost var writes: seq<Record>

    /** The file is the encoding of `log`, and the fields are what replaying it computes. */
    ghost predicate Valid()
      reads this
    {
      && AllEncodable(log) && file == EncodeAll(log) && Replayed(index, dead, end) == Replay(log)
      && Traces(log, base, writes)
    }

    /** The index finds every live value in the file. This much survives a value too long for
        its length field, whose bytes past the field's count the file then holds as well. */
    ghost predicate Serving()
      reads this
    {
      Indexes(file, index, View()) && end == |file| && Storable(View())
    }

    lemma ValidServes()
      requires Valid()
      ensures Serving()
    {
      hide Contents, EncodeAll, Replay, AllEncodable, Traces, Indexes, Storable;
      ReplayIndexes(log);
      TracesAll(log, base, writes);
      LiveStorable(log);
    }

    /** The map the store stands for. */
    ghost function View(): map<nat, Bytes>
      reads this
    {
      Contents(writes)
    }

    /** The file is small or at least half live. */
    ghost predicate Bounded()
      reads this
    {
      end <= 4096 || end <= 2 * Live(View())
    }

    /** The file holds one put for each live key. */
    ghost predicate Compacted()
      reads this
    {
      base == |log| && dead == 0 && DistinctKeys(log) && forall i :: 0 <= i < |log| ==> log[i].kind == KIND_PUT
    }

    /** Open over a file, replaying its whole records and dropping what follows them. */
    constructor Open(bytes: Bytes)
      ensures Valid() && Serving() && log == Parse(bytes) && writes == log && base == 0
      ensures file <= bytes && (AllWhole(bytes) ==> file == bytes)
    {
      hide Encode, Contents, EncodeAll, Replay, Parse, WholeFront, FrontOf;
      var idx: map<nat, Slot>, d: nat, pos: nat := map[], 0, 0;
      ghost var done: seq<Record> := [];
      OpenStart(bytes);
      while WholeFront(bytes[pos..])
        invariant pos <= |bytes| && bytes[..pos] == EncodeAll(done) && AllEncodable(done)
        invariant done + Parse(bytes[pos..]) == Parse(bytes) && Replay(done) == Replayed(idx, d, pos)
        decreases |bytes| - pos
      {
        var buf := bytes[pos..];
        OpenStep(bytes, pos, done);
        FrontFits(buf);
        var key, kind, len := KeyOf(buf), buf[8], LenOf(buf);
        var valueOff := pos + HDR;
        if kind == KIND_PUT {
          if key in idx {
            d := d + HDR + idx[key].len;
          }
          idx := idx[key := Slot(valueOff, len)];
        } else {
          if key in idx {
            d := d + HDR + idx[key].len;
          }
          idx := idx - {key};
          d := d + HDR;
        }
        done := done + [FrontOf(buf)];
        pos := pos + HDR + len;
      }
      OpenEnd(bytes, pos, done);
      file, index, end, dead := bytes[..pos], idx, pos, d;
      log, base, writes := done, 0, done;
      new;
      ValidServes();
    }

    method Get(key: nat) returns (r: Option<Bytes>)
      requires Serving()
      ensures r == if key in View() then Some(View()[key]) else None
    {
      hide Contents;
      if key !in index {
        return None;
      }
      var slot := index[key];
      r := Some(file[slot.off..slot.off + slot.len]);
    }

    /** Put a value; of one too long for its length field only the first `|value| mod 2^32`
        bytes are found again, and the file is no longer a log of records until compacted. */
    method Put(key: nat, value: Bytes)
      requires Serving() && key < Pow256(8)
      modifies this
      ensures Serving() && writes == old(writes) + [Record(key, KIND_PUT, Kept(value))]
      ensures View() == old(View())[key := Kept(value)]
      ensures file == old(file) + Encode(Record(key, KIND_PUT, value)) || (Valid() && Clean(log) && Bounded() && Compacted())
      ensures old(Valid()) && |value| < Pow256(4) ==>
                && Valid() && (old(Clean(log)) ==> Clean(log) && Bounded())
                && (log == old(log) + [Record(key, KIND_PUT, value)] || Compacted())
    {
      hide Encode, EncodeAll, Replay, Pow256, Traces, Live, Contents, Indexes, Storable, Clean, AllEncodable, Compacted, Bounded, Kept;
      WritePut(key, value);
      MaybeCompact();
    }

    /** Append a put to the file and index what its length field lets through. */
    method WritePut(key: nat, value: Bytes)
      requires Serving() && key < Pow256(8)
      modifies this
      ensures Serving() && writes == old(writes) + [Record(key, KIND_PUT, Kept(value))]
      ensures View() == old(View())[key := Kept(value)] && file == old(file) + Encode(Record(key, KIND_PUT, value))
      ensures old(Valid()) && |value| < Pow256(4) ==>
                Valid() && log == old(log) + [Record(key, KIND_PUT, value)] && (old(Clean(log)) ==> Clean(log))
    {
      hide Encode, EncodeAll, Replay, Pow256, Traces, Contents, Indexes, Storable, Clean, AllEncodable, Kept;
      var r := Record(key, KIND_PUT, value);
      ghost var fits := Valid() && |value| < Pow256(4);
      if fits {
        PutEncodable(r);
        Recorded(log, base, writes, r);
      }
      StorePut(file, index, View(), key, value);
      ContentsLast(writes, Record(key, KIND_PUT, Kept(value)));
      var rec := Encode(r);
      file := file + rec;
      var valueOff := end + HDR;
      if key in index {
        dead := dead + HDR + index[key].len;
      }
      index := index[key := Slot(valueOff, |Kept(value)|)];
      end := end + |rec|;
      writes := writes + [Record(key, KIND_PUT, Kept(value))];
      if fits {
        log := log + [r];
      }
    }

    /** Delete a key; absent keys write nothing. */
    method Delete(key: nat)
      requires Serving() && key < Pow256(8)
      modifies this
      ensures Serving() && View() == old(View()) - {key}
      ensures writes == if key in old(View()) then old(writes) + [Record(key, KIND_DEL, [])] else old(writes)
      ensures key !in old(View()) ==> file == old(file) && log == old(log)
      ensures old(Valid()) ==> Valid() && (old(Clean(log) && Bounded()) ==> Clean(log) && Bounded())
      ensures old(Valid()) && key in old(View()) ==> log == old(log) + [Record(key, KIND_DEL, [])] || Compacted()
    {
      hide Encode, EncodeAll, Replay, Pow256, Traces, Live, Contents, Indexes, Storable, Clean, AllEncodable;
      IndexKeys(file, index, View());
      if key in index {
        var r := Record(key, KIND_DEL, []);
        DelEncodable(key);
        ghost var valid := Valid();
        if valid {
          Recorded(log, base, writes, r);
        }
        ContentsLast(writes, r);
        var len := index[key].len;
        var rec := Encode(r);
        StoreDelete(file, rec, index, View(), key);
        index := index - {key};
        file := file + rec;
        end := end + |rec|;
        dead := dead + HDR + len + HDR;
        writes := writes + [r];
        if valid {
          log := log + [r];
        }
        MaybeCompact();
      } else {
        assert View() - {key} == View();
      }
    }

    /** Compact when the file is large and mostly dead. */
    method MaybeCompact()
      requires Serving()
      modifies this
      ensures Serving() && writes == old(writes)
      ensures old(Valid()) ==> Valid() && (old(Clean(log)) ==> Clean(log) && Bounded())
      ensures if old(end) > 4096 && old(dead) * 2 > old(end) then Valid() && Clean(log) && Bounded() && Compacted()
              else file == old(file) && log == old(log) && base == old(base)
    {
      hide Encode, EncodeAll, Replay, Traces, Live, Contents, Indexes, Storable;
      if Valid() {
        TracesAll(log, base, writes);
        if Clean(log) {
          Conservation(log);
        }
      }
      if end > MIN_COMPACT && dead * 2 > end {
        Compact();
      }
    }

    /** Rewrite the file with only the live records. */
    method Compact()
      requires Serving()
      modifies this
      ensures Valid() && Serving() && writes == old(writes) && Clean(log) && Compacted()
      ensures end == Live(View())
    {
      hide Encode, EncodeAll, Replay, Traces, Live, Contents, Indexes, Storable;
      var live := LiveRecords();
      var image, newIndex := Rewrite(live);
      file := image;
      index, end, dead := newIndex, |image|, 0;
      log, base := live, |live|;
      TracesCompacted(log, writes);
      Conservation(log);
      ValidServes();
    }

    /** The live records, in any key order. */
    method LiveRecords() returns (live: seq<Record>)
      requires Serving()
      ensures DistinctKeys(live) && Clean(live) && Contents(live) == View()
      ensures forall i :: 0 <= i < |live| ==> live[i].kind == KIND_PUT
    {
      hide Contents, Collected, Pow256;
      ghost var m := View();
      var todo := index.Keys;
      live := [];
      CollectStart(m);
      while todo != {}
        invariant todo <= index.Keys && Collected(live, m, todo)
        decreases |todo|
      {
        var k :| k in todo;
        var slot := index[k];
        var v := file[slot.off..slot.off + slot.len];
        CollectStep(live, m, todo, k);
        live := live + [Record(k, KIND_PUT, v)];
        todo := todo - {k};
      }
      CollectEnd(live, m);
    }

    /** Lay the live records out afresh. */
    method Rewrite(live: seq<Record>) returns (image: Bytes, newIndex: map<nat, Slot>)
      requires DistinctKeys(live) && forall i :: 0 <= i < |live| ==> live[i].kind == KIND_PUT
      ensures image == EncodeAll(live) && Replay(live) == Replayed(newIndex, 0, |image|)
    {
      hide Encode;
      image, newIndex := [], map[];
      assert live[..0] == [];
      for i := 0 to |live|
        invariant image == EncodeAll(live[..i]) && Replay(live[..i]) == Replayed(newIndex, 0, |image|)
      {
        hide EncodeAll, Replay, DistinctKeys;
        FreshStep(live, i);
        var valueOff := |image| + HDR;
        image := image + Encode(live[i]);
        newIndex := newIndex[live[i].key := Slot(valueOff, |live[i].value|)];
      }
      assert live[..|live|] == live;
    }
  }

  // ---------------------------------------------------------------- whole runs

  datatype Request = Write(key: nat, value: Bytes) | Erase(key: nat) | Reopen

  ghost predicate Fitting(r: Request) {
    (r.Write? || r.Erase? ==> r.key < Pow256(8)) && (r.Write? ==> |r.value| < Pow256(4))
  }

  /** The map after a run of requests: reopening changes nothing. */
  function Outcome(run: seq<Request>): map<nat, Bytes> {
    if run == [] then map[]
    else
      var m := Outcome(run[..|run| - 1]);
      match run[|run| - 1]
      case Write(key, value) => m[key := value]
      case Erase(key) => m - {key}
      case Reopen => m
  }

  /** Any run from an empty file, reopened any number of times: the store holds the run's map,
      and its file stays a clean log that is small or at least half live. */
  method RunStore(run: seq<Request>) returns (store: LogStore)
    requires forall r :: r in run ==> Fitting(r)
    ensures store.Valid() && Clean(store.log) && store.Bounded() && store.View() == Outcome(run)
  {
    hide Contents, Live, LogStore.Serving, LogStore.Bounded, Clean, EncodeAll, Parse, Replay, Pow256;
    store := new LogStore.Open([]);
    EmptyStore(store);
    assert run[..0] == [];
    for i := 0 to |run|
      invariant fresh(store) && store.Valid() && store.Serving() && Clean(store.log) && store.Bounded()
      invariant store.View() == Outcome(run[..i])
    {
      assert run[i] in run;
      assert run[..i + 1][..i] == run[..i];
      if run[i].Write? {
        store.Put(run[i].key, run[i].value);
      } else if run[i].Erase? {
        store.Delete(run[i].key);
      } else {
        var again := new LogStore.Open(store.file);
        SameStore(store, again);
        store := again;
      }
    }
    assert run[..|run|] == run;
  }

  lemma EmptyStore(store: LogStore)
    requires store.Valid() && store.log == Parse([]) && store.writes == store.log
    ensures Clean(store.log) && store.Bounded() && store.View() == map[]
  {
    NoFront();
  }

  /** Reopening an intact file brings back the same store. */
  lemma SameStore(before: LogStore, after: LogStore)
    requires before.Valid() && Clean(before.log) && before.Bounded()
    requires after.Valid() && after.log == Parse(before.file) && after.writes == after.log
    ensures Clean(after.log) && after.Bounded() && after.View() == before.View()
  {
    hide Contents, Live, EncodeAll, Parse, Traces;
    Reopens(before.log);
    TracesAll(before.log, before.base, before.writes);
  }

  /** Nothing but whole records. */
  ghost predicate AllWhole(bytes: Bytes) {
    |EncodeAll(Parse(bytes))| == |bytes|
  }

  lemma OpenStart(bytes: Bytes)
    ensures bytes[0..] == bytes && bytes[..0] == EncodeAll([]) && Replay([]) == Replayed(map[], 0, 0) && AllEncodable([])
    ensures [] + Parse(bytes) == Parse(bytes)
  {
  }

  lemma FrontFits(buf: Bytes)
    requires WholeFront(buf)
    ensures |buf| >= HDR && HDR + LenOf(buf) <= |buf| && (buf[8] == KIND_PUT || buf[8] == KIND_DEL)
    ensures FrontOf(buf).key == KeyOf(buf) && FrontOf(buf).kind == buf[8] && |FrontOf(buf).value| == LenOf(buf)
  {
  }

  /** One more record read. */
  lemma OpenStep(bytes: Bytes, pos: nat, done: seq<Record>)
    requires pos <= |bytes| && bytes[..pos] == EncodeAll(done) && AllEncodable(done) && WholeFront(bytes[pos..])
    requires done + Parse(bytes[pos..]) == Parse(bytes)
    ensures var buf := bytes[pos..];
            var r := FrontOf(buf);
            var next := pos + HDR + LenOf(buf);
            && next <= |bytes| && bytes[..next] == EncodeAll(done + [r]) && AllEncodable(done + [r])
            && done + [r] + Parse(bytes[next..]) == Parse(bytes) && Replay(done + [r]) == Step(Replay(done), r)
  {
    hide EncodeAll, Replay, Encode, Encodable, FrontOf, WholeFront;
    var buf := bytes[pos..];
    FrontFits(buf);
    var r, next := FrontOf(buf), pos + HDR + LenOf(buf);
    FrontEncode(buf);
    EncodeLast(done, r);
    ReplayLast(done, r);
    assert bytes[..next] == bytes[..pos] + buf[..HDR + LenOf(buf)];
    assert buf[HDR + LenOf(buf)..] == bytes[next..];
    assert done + ([r] + Parse(bytes[next..])) == done + [r] + Parse(bytes[next..]);
  }

  lemma OpenEnd(bytes: Bytes, pos: nat, done: seq<Record>)
    requires pos <= |bytes| && bytes[..pos] == EncodeAll(done) && !WholeFront(bytes[pos..])
    requires done + Parse(bytes[pos..]) == Parse(bytes)
    ensures done == Parse(bytes) && Traces(done, 0, done) && (AllWhole(bytes) ==> bytes[..pos] == bytes)
  {
    hide EncodeAll, Contents;
    assert Parse(bytes[pos..]) == [];
  }

  /** One more record in the file, the replayed state and the history. */
  lemma Recorded(log: seq<Record>, base: nat, writes: seq<Record>, r: Record)
    requires AllEncodable(log) && Encodable(r) && Traces(log, base, writes)
    ensures EncodeAll(log + [r]) == EncodeAll(log) + Encode(r) && Replay(log + [r]) == Step(Replay(log), r)
    ensures AllEncodable(log + [r]) && Traces(log + [r], base, writes + [r])
    ensures Contents(writes + [r]) == Apply(Contents(writes), r)
    ensures Clean(log) && (r.kind == KIND_DEL ==> r.value == []) ==> Clean(log + [r])
  {
    hide Encode, EncodeAll, Replay, Contents, Traces, Encodable;
    EncodeLast(log, r);
    ReplayLast(log, r);
    TracesWrite(log, base, writes, r);
    ContentsLast(writes, r);
  }

  lemma ContentsLast(log: seq<Record>, r: Record)
    ensures Contents(log + [r]) == Apply(Contents(log), r)
  {
    assert (log + [r])[..|log|] == log;
  }

  lemma PutEncodable(r: Record)
    requires r.key < Pow256(8) && |r.value| < Pow256(4) && r.kind == KIND_PUT
    ensures Encodable(r)
  {
  }

  lemma IndexKeys(file: Bytes, index: map<nat, Slot>, m: map<nat, Bytes>)
    requires Indexes(file, index, m)
    ensures index.Keys == m.Keys
  {
  }

  lemma DelEncodable(key: nat)
    requires key < Pow256(8)
    ensures Encodable(Record(key, KIND_DEL, []))
  {
  }

  lemma CollectStart(m: map<nat, Bytes>)
    ensures Collected([], m, m.Keys)
  {
    assert m - m.Keys == map[];
  }

  lemma CollectEnd(live: seq<Record>, m: map<nat, Bytes>)
    requires Collected(live, m, {})
    ensures DistinctKeys(live) && Clean(live) && Contents(live) == m && forall i :: 0 <= i < |live| ==> live[i].kind == KIND_PUT
  {
    assert m - {} == m;
  }
}
