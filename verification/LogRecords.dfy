/** The records of a log-structured store: their bytes, what replaying them computes, and what a
    file cut anywhere still holds. */
module LogRecords {
  import opened Prelude

  /** Bytes of a record before its value: key (8), kind (1) and length (4). */
  const HDR: nat := 13

  const KIND_PUT: Byte := 0
  const KIND_DEL: Byte := 1

  // ---------------------------------------------------------------- little-endian words

  function Pow256(w: nat): (p: nat)
    ensures p >= 1
  {
    if w == 0 then 1 else 256 * Pow256(w - 1)
  }

  function Le(n: nat, w: nat): (s: Bytes)
    ensures |s| == w
  {
    if w == 0 then [] else [n % 256] + Le(n / 256, w - 1)
  }

  function UnLe(s: Bytes): nat {
    if s == [] then 0 else s[0] + 256 * UnLe(s[1..])
  }

  lemma {:induction false} LeRound(n: nat, w: nat)
    requires n < Pow256(w)
    ensures UnLe(Le(n, w)) == n
  {
    if w > 0 {
      LeRound(n / 256, w - 1);
      assert Le(n, w)[1..] == Le(n / 256, w - 1);
    }
  }

  /** A word keeps what fits in it. */
  lemma {:induction false} LeWraps(n: nat, w: nat)
    ensures UnLe(Le(n, w)) == n % Pow256(w)
  {
    if w > 0 {
      LeWraps(n / 256, w - 1);
      assert Le(n, w)[1..] == Le(n / 256, w - 1);
      DivMod(n, Pow256(w - 1));
    }
  }

  lemma DivMod(n: nat, p: nat)
    requires p >= 1
    ensures n % (256 * p) == n % 256 + 256 * (n / 256 % p)
  {
    var q, r := n / 256 / p, n / 256 % p;
    var rest := n % 256 + 256 * r;
    assert n == 256 * (q * p + r) + n % 256;
    assert 256 * (q * p) == q * (256 * p);
    assert n == q * (256 * p) + rest && 0 <= rest < 256 * p;
    Remainder(n, q, 256 * p, rest);
  }

  lemma Remainder(n: nat, q: nat, m: nat, r: nat)
    requires m > 0 && n == q * m + r && r < m
    ensures n % m == r
  {
    var other := n / m;
    assert n == other * m + n % m;
    if other < q {
      Times(other + 1, q, m);
    } else if q < other {
      Times(q + 1, other, m);
    }
  }

  lemma Times(a: nat, b: nat, m: nat)
    requires a <= b && a > 0
    ensures (a - 1) * m + m <= b * m
  {
    assert (a - 1) * m + m == a * m;
    assert (b - a) * m >= 0;
    assert (b - a) * m == b * m - a * m;
  }

  lemma {:induction false} UnLeRound(s: Bytes)
    ensures UnLe(s) < Pow256(|s|) && Le(UnLe(s), |s|) == s
  {
    if s != [] {
      UnLeRound(s[1..]);
      var u := UnLe(s[1..]);
      assert (s[0] + 256 * u) % 256 == s[0] && (s[0] + 256 * u) / 256 == u;
      assert s == [s[0]] + s[1..];
    }
  }

  // ---------------------------------------------------------------- records

  datatype Record = Record(key: nat, kind: Byte, value: Bytes)

  ghost predicate Encodable(r: Record) {
    r.key < Pow256(8) && |r.value| < Pow256(4) && (r.kind == KIND_PUT || r.kind == KIND_DEL)
  }

  function Encode(r: Record): (s: Bytes)
    ensures |s| == HDR + |r.value|
  {
    Le(r.key, 8) + [r.kind] + Le(|r.value|, 4) + r.value
  }

  /** Byte `i` of a little-endian word is the `i`-th digit to base 256. */
  lemma {:induction false} LeAt(n: nat, w: nat, i: nat)
    requires i < w
    ensures Le(n, w)[i] == n / Pow256(i) % 256
  {
    if i > 0 {
      LeAt(n / 256, w - 1, i - 1);
      DivDiv(n, Pow256(i - 1));
    }
  }

  lemma DivDiv(n: nat, p: nat)
    requires p >= 1
    ensures n / 256 / p == n / (256 * p)
  {
    var q, r := n / 256 / p, n / 256 % p;
    var rest := n % 256 + 256 * r;
    assert n == 256 * (q * p + r) + n % 256;
    assert 256 * (q * p) == q * (256 * p);
    Quotient(n, q, 256 * p, rest);
  }

  lemma Quotient(n: nat, q: nat, m: nat, r: nat)
    requires m > 0 && n == q * m + r && r < m
    ensures n / m == q
  {
    var other := n / m;
    assert n == other * m + n % m;
    if other < q {
      Times(other + 1, q, m);
    } else if q < other {
      Times(q + 1, other, m);
    }
  }

  /** A record's bytes: the key in eight, low byte first, then 0 for a put or 1 for a delete, the
      value's length in four, low byte first, and the value. */
  lemma Layout(key: nat, put: bool, value: Bytes, i: nat)
    requires i < 13 + |value|
    ensures var s := Encode(Record(key, if put then KIND_PUT else KIND_DEL, value));
            && |s| == 13 + |value|
            && s[i] == (if i < 8 then key / Pow256(i) % 256
                        else if i == 8 then (if put then 0 else 1)
                        else if i < 13 then |value| / Pow256(i - 9) % 256
                        else value[i - 13])
  {
    hide Le, Pow256;
    if i < 8 {
      LeAt(key, 8, i);
    } else if 9 <= i < 13 {
      LeAt(|value|, 4, i - 9);
    }
  }

  function EncodeAll(log: seq<Record>): Bytes {
    if log == [] then [] else Encode(log[0]) + EncodeAll(log[1..])
  }

  function KeyOf(buf: Bytes): nat
    requires |buf| >= HDR
  {
    UnLe(buf[..8])
  }

  function LenOf(buf: Bytes): nat
    requires |buf| >= HDR
  {
    UnLe(buf[9..13])
  }

  /** A whole record of a known kind stands at the front. */
  predicate WholeFront(buf: Bytes) {
    |buf| >= HDR && HDR + LenOf(buf) <= |buf| && (buf[8] == KIND_PUT || buf[8] == KIND_DEL)
  }

  function FrontOf(buf: Bytes): Record
    requires WholeFront(buf)
  {
    Record(KeyOf(buf), buf[8], buf[HDR..HDR + LenOf(buf)])
  }

  /** The whole records at the front of a file. */
  function Parse(buf: Bytes): seq<Record>
    decreases |buf|
  {
    if WholeFront(buf) then [FrontOf(buf)] + Parse(buf[HDR + LenOf(buf)..]) else []
  }

  /** The fields of an encoded record. */
  lemma EncodeFields(r: Record, rest: Bytes)
    ensures var buf := Encode(r) + rest;
            buf[..8] == Le(r.key, 8) && buf[8] == r.kind && buf[9..13] == Le(|r.value|, 4)
            && buf[HDR..HDR + |r.value|] == r.value && buf[HDR + |r.value|..] == rest
  {
  }

  /** A whole encoded record is read back. */
  lemma FrontRound(r: Record, rest: Bytes)
    requires Encodable(r)
    ensures var buf := Encode(r) + rest;
            WholeFront(buf) && FrontOf(buf) == r && LenOf(buf) == |r.value| && buf[HDR + |r.value|..] == rest
  {
    hide Encode, Le, UnLe, Pow256;
    EncodeFields(r, rest);
    LeRound(r.key, 8);
    LeRound(|r.value|, 4);
  }

  /** What the length field lets through of a value: the first `|value| mod 2^32` bytes. */
  function Kept(value: Bytes): (s: Bytes)
    ensures |value| < Pow256(4) ==> s == value
  {
    value[..|value| % Pow256(4)]
  }

  /** Any put is read back as what its length field lets through. */
  lemma FrontWraps(r: Record)
    requires r.key < Pow256(8) && (r.kind == KIND_PUT || r.kind == KIND_DEL)
    ensures WholeFront(Encode(r)) && FrontOf(Encode(r)) == Record(r.key, r.kind, Kept(r.value))
  {
    hide Encode, Le, UnLe, Pow256;
    EncodeFields(r, []);
    assert Encode(r) + [] == Encode(r);
    LeRound(r.key, 8);
    LeWraps(|r.value|, 4);
    assert Encode(r)[HDR..HDR + |r.value|][..|r.value| % Pow256(4)] == Encode(r)[HDR..HDR + |r.value| % Pow256(4)];
  }

  /** A log with one more put reads back as that exactly when the value fits its length
      field. */
  lemma PutReadsBack(log: seq<Record>, r: Record)
    requires AllEncodable(log) && r.key < Pow256(8) && r.kind == KIND_PUT
    ensures Parse(EncodeAll(log) + Encode(r)) == log + [r] <==> |r.value| < Pow256(4)
  {
    hide Encode, EncodeAll, WholeFront, FrontOf, Pow256;
    ParseOnto(log, Encode(r));
    FrontWraps(r);
    if |r.value| < Pow256(4) {
      FrontRound(r, []);
      assert Encode(r) + [] == Encode(r);
      NoFront();
    } else {
      assert (log + [r])[|log|] == r;
      assert (log + Parse(Encode(r)))[|log|] == FrontOf(Encode(r));
    }
  }

  /** Whole records are read first, whatever follows them. */
  lemma {:induction false} ParseOnto(log: seq<Record>, rest: Bytes)
    requires AllEncodable(log)
    ensures Parse(EncodeAll(log) + rest) == log + Parse(rest)
  {
    hide Encode, WholeFront, FrontOf, Encodable, LenOf;
    if log == [] {
      assert [] + rest == rest;
    } else {
      var e, more := Encode(log[0]), EncodeAll(log[1..]);
      assert e + more + rest == e + (more + rest);
      FrontRound(log[0], more + rest);
      ParseOnto(log[1..], rest);
      assert log == [log[0]] + log[1..];
    }
  }

  /** A record cut short is not read. */
  lemma FrontCut(r: Record, n: nat)
    requires Encodable(r) && n < |Encode(r)|
    ensures !WholeFront(Encode(r)[..n])
  {
    hide Encode, Le, UnLe, Pow256;
    var buf := Encode(r)[..n];
    if n >= HDR {
      EncodeFields(r, []);
      assert Encode(r) + [] == Encode(r);
      assert buf[9..13] == Encode(r)[9..13];
      LeRound(|r.value|, 4);
    }
  }

  /** How many whole records the first `n` bytes of an encoded log hold. */
  function Whole(log: seq<Record>, n: nat): (k: nat)
    ensures k <= |log|
  {
    if log == [] || |Encode(log[0])| > n then 0 else 1 + Whole(log[1..], n - |Encode(log[0])|)
  }

  ghost predicate AllEncodable(log: seq<Record>) {
    forall i :: 0 <= i < |log| ==> Encodable(log[i])
  }

  /** A log cut at any byte parses to its whole records. */
  lemma {:induction false} ParseCut(log: seq<Record>, n: nat)
    requires AllEncodable(log) && n <= |EncodeAll(log)|
    ensures Parse(EncodeAll(log)[..n]) == log[..Whole(log, n)]
  {
    hide Encode, Encodable, WholeFront, FrontOf;
    if log != [] {
      var r, e, rest := log[0], Encode(log[0]), EncodeAll(log[1..]);
      if n < |e| {
        assert (e + rest)[..n] == e[..n];
        FrontCut(r, n);
      } else {
        assert (e + rest)[..n] == e + rest[..n - |e|];
        FrontRound(r, rest[..n - |e|]);
        ParseCut(log[1..], n - |e|);
        assert log[..Whole(log, n)] == [r] + log[1..][..Whole(log[1..], n - |e|)];
      }
    } else {
      assert EncodeAll(log)[..n] == [];
      NoFront();
    }
  }

  lemma NoFront()
    ensures !WholeFront([])
  {
  }

  /** What was parsed is the encoding it was parsed from. */
  lemma FrontEncode(buf: Bytes)
    requires WholeFront(buf)
    ensures Encodable(FrontOf(buf)) && Encode(FrontOf(buf)) == buf[..HDR + LenOf(buf)]
  {
    hide Le, UnLe, Pow256;
    UnLeRound(buf[..8]);
    UnLeRound(buf[9..13]);
    assert buf[..HDR + LenOf(buf)] == buf[..8] + [buf[8]] + buf[9..13] + buf[HDR..HDR + LenOf(buf)];
  }

  lemma {:induction false} EncodeJoin(a: seq<Record>, b: seq<Record>)
    ensures EncodeAll(a + b) == EncodeAll(a) + EncodeAll(b)
  {
    hide Encode;
    if a == [] {
      assert a + b == b;
    } else {
      EncodeJoin(a[1..], b);
      assert (a + b)[1..] == a[1..] + b && (a + b)[0] == a[0];
      Regroup(Encode(a[0]), EncodeAll(a[1..]), EncodeAll(b));
    }
  }

  lemma Regroup(a: Bytes, b: Bytes, c: Bytes)
    ensures a + (b + c) == a + b + c
  {
  }

  lemma EncodeLast(log: seq<Record>, r: Record)
    ensures EncodeAll(log + [r]) == EncodeAll(log) + Encode(r)
  {
    hide Encode;
    EncodeJoin(log, [r]);
    assert [r][1..] == [];
  }

  // ---------------------------------------------------------------- replay

  /** Where a value lies in the file. */
  datatype Slot = Slot(off: nat, len: nat)

  /** What replay keeps: the index, the dead bytes and the position. */
  datatype Replayed = Replayed(index: map<nat, Slot>, dead: nat, end: nat)

  function Superseded(index: map<nat, Slot>, key: nat): nat {
    if key in index then HDR + index[key].len else 0
  }

  function Step(st: Replayed, r: Record): Replayed {
    var off := st.end + HDR;
    var dead := st.dead + Superseded(st.index, r.key);
    if r.kind == KIND_PUT then Replayed(st.index[r.key := Slot(off, |r.value|)], dead, off + |r.value|)
    else Replayed(st.index - {r.key}, dead + HDR, off + |r.value|)
  }

  function Replay(log: seq<Record>): Replayed {
    if log == [] then Replayed(map[], 0, 0) else Step(Replay(log[..|log| - 1]), log[|log| - 1])
  }

  lemma ReplayLast(log: seq<Record>, r: Record)
    ensures Replay(log + [r]) == Step(Replay(log), r)
  {
    hide Step;
    assert (log + [r])[..|log|] == log;
  }

  // ---------------------------------------------------------------- the map a log stands for

  function Apply(m: map<nat, Bytes>, r: Record): map<nat, Bytes> {
    if r.kind == KIND_PUT then m[r.key := r.value] else m - {r.key}
  }

  function Contents(log: seq<Record>): map<nat, Bytes> {
    if log == [] then map[] else Apply(Contents(log[..|log| - 1]), log[|log| - 1])
  }

  function ApplyAll(m: map<nat, Bytes>, log: seq<Record>): map<nat, Bytes> {
    if log == [] then m else Apply(ApplyAll(m, log[..|log| - 1]), log[|log| - 1])
  }

  lemma {:induction false} ContentsJoin(a: seq<Record>, b: seq<Record>)
    ensures Contents(a + b) == ApplyAll(Contents(a), b)
    decreases |b|
  {
    hide Apply;
    if b == [] {
      assert a + b == a;
    } else {
      var m := |b| - 1;
      ContentsJoin(a, b[..m]);
      assert (a + b)[..|a| + m] == a + b[..m] && (a + b)[|a| + m] == b[m];
      assert |a + b| - 1 == |a| + m;
    }
  }

  /** The index finds every live value in the file, and nothing else. */
  ghost predicate Indexes(file: Bytes, index: map<nat, Slot>, m: map<nat, Bytes>) {
    && index.Keys == m.Keys
    && forall k :: k in index ==> index[k].off + index[k].len <= |file| && file[index[k].off..index[k].off + index[k].len] == m[k]
  }

  lemma IndexesMore(file: Bytes, more: Bytes, index: map<nat, Slot>, m: map<nat, Bytes>)
    requires Indexes(file, index, m)
    ensures Indexes(file + more, index, m)
  {
    forall k | k in index
      ensures (file + more)[index[k].off..index[k].off + index[k].len] == m[k]
    {
      assert (file + more)[index[k].off..index[k].off + index[k].len] == file[index[k].off..index[k].off + index[k].len];
    }
  }

  /** One more record keeps the index exact. */
  lemma IndexesStep(file: Bytes, st: Replayed, m: map<nat, Bytes>, r: Record)
    requires Indexes(file, st.index, m) && st.end == |file|
    ensures var next := Step(st, r); Indexes(file + Encode(r), next.index, Apply(m, r)) && next.end == |file + Encode(r)|
  {
    hide Encode;
    IndexesMore(file, Encode(r), st.index, m);
    EncodeFields(r, []);
    assert Encode(r) + [] == Encode(r);
    var next := Step(st, r);
    if r.kind == KIND_PUT {
      var off := |file| + HDR;
      assert (file + Encode(r))[off..off + |r.value|] == Encode(r)[HDR..HDR + |r.value|];
    }
  }

  /** Replaying a log indexes its contents. */
  lemma {:induction false} ReplayIndexes(log: seq<Record>)
    ensures Indexes(EncodeAll(log), Replay(log).index, Contents(log)) && Replay(log).end == |EncodeAll(log)|
  {
    if log != [] {
      hide Indexes, Step, Apply, Encode;
      var m := |log| - 1;
      ReplayIndexes(log[..m]);
      EncodeLast(log[..m], log[m]);
      assert log[..m] + [log[m]] == log;
      IndexesStep(EncodeAll(log[..m]), Replay(log[..m]), Contents(log[..m]), log[m]);
    }
  }

  // ---------------------------------------------------------------- live and dead bytes

  /** Bytes of the records that hold the live values. */
  ghost function Live(m: map<nat, Bytes>): nat
    decreases |m|
  {
    if |m| == 0 then 0
    else
      var k := Pick(m);
      HDR + |m[k]| + Live(m - {k})
  }

  ghost function Pick(m: map<nat, Bytes>): (k: nat)
    requires |m| > 0
    ensures k in m
  {
    assert m.Keys != {};
    var k :| k in m.Keys;
    k
  }

  /** Any live record can be counted apart. */
  lemma {:induction false} LiveWithout(m: map<nat, Bytes>, k: nat)
    requires k in m
    ensures Live(m) == HDR + |m[k]| + Live(m - {k})
    decreases |m|
  {
    hide Pick;
    assert |m| > 0;
    var p := Pick(m);
    if p != k {
      LiveWithout(m - {p}, k);
      LiveWithout(m - {k}, p);
      assert m - {p} - {k} == m - {k} - {p};
    }
  }

  lemma LivePut(m: map<nat, Bytes>, k: nat, v: Bytes)
    ensures Live(m[k := v]) + (if k in m then HDR + |m[k]| else 0) == Live(m) + HDR + |v|
  {
    LiveWithout(m[k := v], k);
    if k in m {
      LiveWithout(m, k);
      assert m[k := v] - {k} == m - {k};
    } else {
      assert m[k := v] - {k} == m;
    }
  }

  lemma LiveDel(m: map<nat, Bytes>, k: nat)
    ensures Live(m - {k}) + (if k in m then HDR + |m[k]| else 0) == Live(m)
  {
    if k in m {
      LiveWithout(m, k);
    } else {
      assert m - {k} == m;
    }
  }

  /** Every tombstone is empty, as the store writes them. */
  ghost predicate Clean(log: seq<Record>) {
    forall i :: 0 <= i < |log| ==> Encodable(log[i]) && (log[i].kind == KIND_DEL ==> log[i].value == [])
  }

  lemma LiveStep(st: Replayed, m: map<nat, Bytes>, r: Record)
    requires st.index.Keys == m.Keys && (forall k :: k in m ==> st.index[k].len == |m[k]|) && st.end == Live(m) + st.dead
    requires r.kind == KIND_PUT || (r.kind == KIND_DEL && r.value == [])
    ensures var next := Step(st, r); next.end == Live(Apply(m, r)) + next.dead
  {
    hide Live;
    if r.kind == KIND_PUT {
      LivePut(m, r.key, r.value);
    } else {
      LiveDel(m, r.key);
    }
  }

  /** Every byte of the file belongs to a live record or is counted dead. */
  lemma {:induction false} Conservation(log: seq<Record>)
    requires Clean(log)
    ensures Replay(log).end == Live(Contents(log)) + Replay(log).dead
  {
    if log != [] {
      var m := |log| - 1;
      Conservation(log[..m]);
      hide Live, Step, Apply;
      SameLens(log[..m]);
      LiveStep(Replay(log[..m]), Contents(log[..m]), log[m]);
    }
  }

  lemma SameLens(log: seq<Record>)
    ensures var st, m := Replay(log), Contents(log); st.index.Keys == m.Keys && forall k :: k in m ==> st.index[k].len == |m[k]|
  {
    hide Replay, Contents, EncodeAll;
    ReplayIndexes(log);
  }
}
