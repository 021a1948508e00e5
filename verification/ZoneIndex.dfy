/** The zone index of the DNS server: a hash table with linear probing, filled once from the
    zone file and searched for every question. */
module ZoneIndex {
  import opened Bits
  import opened Grammar

  type Name = seq<seq<byte>>

  datatype RecordType = A | NS | MX | CNAME
  datatype Definition = Definition(hostname: Name, kind: RecordType, parts: seq<seq<byte>>)
  datatype Question = Question(name: Name, qtype: nat)

  const TYPE_A := 1
  const TYPE_NS := 2
  const TYPE_CNAME := 5
  const TYPE_MX := 15
  const QTYPE_ANY := 255

  /** djb2, in 64-bit arithmetic, over the characters of all labels. */
  function HashLabel(hash: nat, chars: seq<byte>): nat
    decreases |chars|
  {
    if chars == [] then hash
    else (HashLabel(hash, chars[..|chars| - 1]) * 33 + chars[|chars| - 1]) % WORD
  }

  function HashFrom(hash: nat, name: Name): nat
    decreases |name|
  {
    if name == [] then hash else HashLabel(HashFrom(hash, name[..|name| - 1]), name[|name| - 1])
  }

  function Hash(name: Name): nat {
    HashFrom(5381, name)
  }

  function Characters(name: Name): seq<byte> {
    if name == [] then [] else name[0] + Characters(name[1..])
  }

  /** The characters as the digits, in base 33, of a number that begins with `h`. */
  function Base33(h: nat, chars: seq<byte>): nat
    decreases |chars|
  {
    if chars == [] then h else Base33(h, chars[..|chars| - 1]) * 33 + chars[|chars| - 1]
  }

  lemma ShiftMod(a: nat, x: nat)
    ensures (a % WORD * 33 + x) % WORD == (a * 33 + x) % WORD
  {
    var q := a / WORD;
    assert a * 33 + x == a % WORD * 33 + x + WORD * (33 * q);
    var y := a % WORD * 33 + x;
    ModUnique(y + WORD * (33 * q), WORD, y / WORD + 33 * q, y % WORD);
  }

  lemma {:induction false} LabelInBase33(h: nat, chars: seq<byte>)
    ensures HashLabel(h % WORD, chars) == Base33(h, chars) % WORD
    decreases |chars|
  {
    if chars != [] {
      LabelInBase33(h, chars[..|chars| - 1]);
      ShiftMod(Base33(h, chars[..|chars| - 1]), chars[|chars| - 1]);
    }
  }

  lemma {:induction false} Base33Concat(h: nat, a: seq<byte>, b: seq<byte>)
    ensures Base33(h, a + b) == Base33(Base33(h, a), b)
    decreases |b|
  {
    if b == [] {
      assert a + b == a;
    } else {
      assert (a + b)[..|a + b| - 1] == a + b[..|b| - 1];
      Base33Concat(h, a, b[..|b| - 1]);
    }
  }

  lemma {:induction false} CharactersOfLast(name: Name)
    requires name != []
    ensures Characters(name) == Characters(name[..|name| - 1]) + name[|name| - 1]
  {
    if |name| > 1 {
      CharactersOfLast(name[1..]);
      assert name[1..][..|name| - 2] == name[..|name| - 1][1..];
    } else {
      assert name[1..] == [] && name[..0] == [];
      assert name[0] + [] == name[0] && [] + name[0] == name[0];
    }
  }

  lemma {:induction false} FromInBase33(h: nat, name: Name)
    ensures HashFrom(h % WORD, name) == Base33(h, Characters(name)) % WORD
    decreases |name|
  {
    if name != [] {
      var init, last := name[..|name| - 1], name[|name| - 1];
      FromInBase33(h, init);
      LabelInBase33(Base33(h, Characters(init)), last);
      CharactersOfLast(name);
      Base33Concat(h, Characters(init), last);
    }
  }

  /** The hash is a number in base 33, taken modulo 2^64 once: reducing it at every step changes
      nothing, and the boundaries between labels leave no trace. */
  lemma HashInBase33(name: Name)
    ensures Hash(name) == Base33(5381, Characters(name)) % WORD
  {
    FromInBase33(5381, name);
  }

  method DomainHash(name: Name) returns (h: nat)
    ensures h == Hash(name)
  {
    h := 5381;
    for i := 0 to |name|
      invariant h == HashFrom(5381, name[..i])
    {
      ghost var before := h;
      var chars := name[i];
      for j := 0 to |chars|
        invariant h == HashLabel(before, chars[..j])
      {
        ShiftAdd(h);
        h := (h * 32 + h + chars[j]) % WORD;
        assert chars[..j + 1][..j] == chars[..j];
      }
      assert chars[..|chars|] == chars;
      assert name[..i + 1][..i] == name[..i];
    }
    assert name[..|name|] == name;
  }

  lemma ShiftAdd(h: nat)
    ensures h * 32 + h == h * 33
  {
  }

  /** Zero when the names are equal, like the C function. */
  method DomainCmp(a: Name, b: Name) returns (r: int)
    ensures r == 0 <==> a == b
  {
    if |a| != |b| { return 1; }
    for i := 0 to |a|
      invariant a[..i] == b[..i]
    {
      if |a[i]| != |b[i]| { return 1; }
      if a[i] != b[i] { return 1; }
    }
    assert a[..|a|] == a && b[..|b|] == b;
    return 0;
  }

  function HashSize(n: nat): nat {
    3 * n / 2
  }

  datatype Entry = Empty | Full(hash: nat, def: nat)

  // Probing: the t-th slot from a home slot, and how far a slot is from it.

  function Slot(home: nat, t: nat, size: nat): (s: nat)
    requires home < size && t < size
    ensures s < size
  {
    if home + t < size then home + t else home + t - size
  }

  function Distance(home: nat, s: nat, size: nat): (t: nat)
    requires home < size && s < size
    ensures t < size && Slot(home, t, size) == s
  {
    if home <= s then s - home else s + size - home
  }

  function Home(hash: nat, size: nat): (h: nat)
    ensures size > 0 ==> h < size
  {
    if size == 0 then 0 else hash % size
  }

  /** The first n slots from `home` are full. */
  predicate PathFull(table: seq<Entry>, home: nat, n: nat)
    requires home < |table| && n <= |table|
  {
    forall t | 0 <= t < n :: table[Slot(home, t, |table|)].Full?
  }

  /** The table holds the first k definitions of the zone, definition d in slot where[d]. */
  ghost predicate Indexed(table: seq<Entry>, zone: seq<Definition>, slots: seq<nat>) {
    && |slots| <= |zone|
    && (forall d | 0 <= d < |slots| :: slots[d] < |table|)
    // every definition is stored once, and nothing else is
    && (forall d | 0 <= d < |slots| :: table[slots[d]] == Full(Hash(zone[d].hostname), d))
    && (forall s | 0 <= s < |table| && table[s].Full? :: table[s].def < |slots| && slots[table[s].def] == s)
    // the probe path to it is full
    && (forall d | 0 <= d < |slots| ::
          var home := Home(Hash(zone[d].hostname), |table|);
          PathFull(table, home, Distance(home, slots[d], |table|)))
    // definitions of equal hash lie along the path in zone order
    && (forall c, d | 0 <= c < d < |slots| && Hash(zone[c].hostname) == Hash(zone[d].hostname) ::
          var home := Home(Hash(zone[d].hostname), |table|);
          Distance(home, slots[c], |table|) < Distance(home, slots[d], |table|))
  }

  lemma {:induction false} RangeSize(n: nat) returns (s: set<nat>)
    ensures |s| == n && forall i: nat :: i in s <==> i < n
  {
    if n == 0 {
      s := {};
    } else {
      s := RangeSize(n - 1);
      s := s + {n - 1};
    }
  }

  lemma {:induction false} ElementsSize(slots: seq<nat>) returns (s: set<nat>)
    ensures |s| <= |slots| && forall x :: x in slots ==> x in s
  {
    if slots == [] {
      s := {};
    } else {
      s := ElementsSize(slots[1..]);
      s := s + {slots[0]};
    }
  }

  lemma SubsetSize(a: set<nat>, b: set<nat>)
    requires a <= b
    ensures |a| <= |b|
  {
    assert b == a + (b - a);
  }

  /** With more slots than definitions some slot is empty, so every probe ends. */
  lemma SomeSlotEmpty(table: seq<Entry>, zone: seq<Definition>, slots: seq<nat>) returns (e: nat)
    requires Indexed(table, zone, slots) && |slots| < |table|
    ensures e < |table| && table[e].Empty?
  {
    if forall s | 0 <= s < |table| :: table[s].Full? {
      var range := RangeSize(|table|);
      var elems := ElementsSize(slots);
      forall s: nat | s in range ensures s in elems {
        assert table[s].Full? && slots[table[s].def] == s;
      }
      SubsetSize(range, elems);
      assert false;
    }
    e :| 0 <= e < |table| && table[e].Empty?;
  }

  /** Half as many slots again as definitions, rounded down: there is room for every zone, and the
      table is larger than it exactly from two definitions on. */
  lemma RoomWhen(n: nat)
    ensures 3 * n - 1 <= 2 * HashSize(n) <= 3 * n
    ensures HashSize(n) >= n && (HashSize(n) > n <==> n >= 2)
  {
  }

  method NextSlot(entry: nat, size: nat) returns (next: nat)
    requires entry < size
    ensures next == if entry + 1 == size then 0 else entry + 1
  {
    next := (entry + 1) % size;
  }

  /** The probe of an insertion: the first empty slot from the home slot on. */
  method Probe(table: array<Entry>, hash: nat, ghost zone: seq<Definition>, ghost slots: seq<nat>) returns (entry: nat)
    requires Indexed(table[..], zone, slots) && |slots| < table.Length
    ensures entry < table.Length && table[entry].Empty?
    ensures var home := Home(hash, table.Length); PathFull(table[..], home, Distance(home, entry, table.Length))
  {
    ghost var e := SomeSlotEmpty(table[..], zone, slots);
    var size := table.Length;
    entry := hash % size;
    ghost var home, t := entry, 0;
    while !table[entry].Empty?
      invariant t <= Distance(home, e, size) && entry == Slot(home, t, size)
      invariant PathFull(table[..], home, t)
      decreases size - t
    {
      entry := NextSlot(entry, size);
      t := t + 1;
    }
    assert Distance(home, entry, size) == t;
  }

  lemma InsertKeeps(table: seq<Entry>, zone: seq<Definition>, slots: seq<nat>, entry: nat)
    requires Indexed(table, zone, slots) && |slots| < |zone| && entry < |table| && table[entry].Empty?
    requires var home := Home(Hash(zone[|slots|].hostname), |table|);
             PathFull(table, home, Distance(home, entry, |table|))
    ensures Indexed(table[entry := Full(Hash(zone[|slots|].hostname), |slots|)], zone, slots + [entry])
  {
    InsertKeepsPaths(table, zone, slots, entry);
    InsertKeepsOrder(table, zone, slots, entry);
  }

  lemma InsertKeepsPaths(table: seq<Entry>, zone: seq<Definition>, slots: seq<nat>, entry: nat)
    requires Indexed(table, zone, slots) && |slots| < |zone| && entry < |table| && table[entry].Empty?
    requires var home := Home(Hash(zone[|slots|].hostname), |table|);
             PathFull(table, home, Distance(home, entry, |table|))
    ensures var after, slots' := table[entry := Full(Hash(zone[|slots|].hostname), |slots|)], slots + [entry];
            forall d | 0 <= d < |slots'| ::
              slots'[d] < |after| &&
              var home := Home(Hash(zone[d].hostname), |after|);
              PathFull(after, home, Distance(home, slots'[d], |after|))
  {
    var after, slots' := table[entry := Full(Hash(zone[|slots|].hostname), |slots|)], slots + [entry];
    forall d | 0 <= d < |slots'|
      ensures slots'[d] < |after|
      ensures var home := Home(Hash(zone[d].hostname), |after|);
              PathFull(after, home, Distance(home, slots'[d], |after|))
    {
      var h := Home(Hash(zone[d].hostname), |table|);
      assert PathFull(table, h, Distance(h, slots'[d], |table|));
    }
  }

  lemma InsertKeepsOrder(table: seq<Entry>, zone: seq<Definition>, slots: seq<nat>, entry: nat)
    requires Indexed(table, zone, slots) && |slots| < |zone| && entry < |table| && table[entry].Empty?
    ensures var home := Home(Hash(zone[|slots|].hostname), |table|);
            forall c | 0 <= c < |slots| && Hash(zone[c].hostname) == Hash(zone[|slots|].hostname) ::
              slots[c] < |table| && Distance(home, slots[c], |table|) < Distance(home, entry, |table|)
  {
    var hash := Hash(zone[|slots|].hostname);
    var home := Home(hash, |table|);
    forall c | 0 <= c < |slots| && Hash(zone[c].hostname) == hash
      ensures slots[c] < |table| && Distance(home, slots[c], |table|) < Distance(home, entry, |table|)
    {
      BeforeEmpty(table, home, slots[c], entry);
    }
  }

  /** A slot whose probe path is full and that is full itself comes before any empty slot. */
  lemma BeforeEmpty(table: seq<Entry>, home: nat, s: nat, e: nat)
    requires home < |table| && s < |table| && e < |table| && table[s].Full? && table[e].Empty?
    requires PathFull(table, home, Distance(home, s, |table|))
    ensures Distance(home, s, |table|) < Distance(home, e, |table|)
  {
    var t := Distance(home, e, |table|);
    assert Slot(home, t, |table|) == e;
  }

  method ZoneHashtable(zone: seq<Definition>) returns (table: array<Entry>, ghost slots: seq<nat>)
    ensures fresh(table) && table.Length == HashSize(|zone|) && |slots| == |zone|
    ensures Indexed(table[..], zone, slots)
  {
    table := new Entry[HashSize(|zone|)](_ => Empty);
    slots := [];
    var k := 0;
    while k < |zone|
      invariant k <= |zone| && |slots| == k
      invariant Indexed(table[..], zone, slots)
    {
      ghost var before := table[..];
      var hash := DomainHash(zone[k].hostname);
      var entry := Probe(table, hash, zone, slots);
      table[entry] := Full(hash, k);
      assert table[..] == before[entry := Full(hash, k)];
      InsertKeeps(before, zone, slots, entry);
      slots := slots + [entry];
      k := k + 1;
    }
  }

  // Lookup.

  predicate TypeAcceptable(qtype: nat, kind: RecordType) {
    || kind.CNAME? || qtype == QTYPE_ANY
    || (qtype == TYPE_A && kind.A?) || (qtype == TYPE_MX && kind.MX?) || (qtype == TYPE_NS && kind.NS?)
  }

  /** The definition answers the question. */
  predicate Answers(j: Definition, q: Question) {
    j.hostname == q.name && TypeAcceptable(q.qtype, j.kind) && (j.kind.A? ==> |j.parts| >= 4)
  }

  /** What answers a question, kind by kind and in the numbers of section 3.2 of RFC 1035: an alias
      any question for its name; a name server questions of type 2, a mail exchange those of type 15,
      an address of four parts or more those of type 1; and all of them questions of type 255. */
  predicate Suits(j: Definition, name: Name, qtype: nat) {
    && j.hostname == name
    && match j.kind
       case CNAME => true
       case NS => qtype == 2 || qtype == 255
       case MX => qtype == 15 || qtype == 255
       case A => (qtype == 1 || qtype == 255) && |j.parts| >= 4
  }

  lemma AnswersWhen(j: Definition, q: Question)
    ensures Answers(j, q) <==> Suits(j, q.name, q.qtype)
  {
  }

  /** The linear scan, in these terms. */
  lemma FirstSuits(zone: seq<Definition>, q: Question)
    ensures var r := FirstAnswer(zone, q, 0);
            var last := if r.Some? then r.value else |zone|;
            && last <= |zone| && (r.Some? ==> last < |zone| && Suits(zone[last], q.name, q.qtype))
            && forall d | 0 <= d < last :: !Suits(zone[d], q.name, q.qtype)
  {
    var r := FirstAnswer(zone, q, 0);
    var last := if r.Some? then r.value else |zone|;
    if r.Some? { AnswersWhen(zone[last], q); }
    forall d | 0 <= d < last ensures !Suits(zone[d], q.name, q.qtype) {
      AnswersWhen(zone[d], q);
    }
  }

  /** The reference: a linear scan of the zone file. */
  function FirstAnswer(zone: seq<Definition>, q: Question, from: nat): (r: Option<nat>)
    requires from <= |zone|
    ensures r.Some? ==> from <= r.value < |zone| && Answers(zone[r.value], q)
    ensures forall d | from <= d < (if r.Some? then r.value else |zone|) :: !Answers(zone[d], q)
    decreases |zone| - from
  {
    if from == |zone| then None
    else if Answers(zone[from], q) then Some(from)
    else FirstAnswer(zone, q, from + 1)
  }

  lemma FirstIsUnique(zone: seq<Definition>, q: Question, d: nat)
    requires d < |zone| && Answers(zone[d], q) && forall c | 0 <= c < d :: !Answers(zone[c], q)
    ensures FirstAnswer(zone, q, 0) == Some(d)
  {
  }

  /** The search of one question, at most `fuel` slots long: None when it has not ended by then. */
  function Search(table: seq<Entry>, zone: seq<Definition>, q: Question, entry: nat, fuel: nat): Option<Option<nat>>
    requires entry < |table| && forall s | 0 <= s < |table| && table[s].Full? :: table[s].def < |zone|
    decreases fuel
  {
    if fuel == 0 then None
    else if table[entry].Empty? then Some(None)
    else if table[entry].hash == Hash(q.name) && Answers(zone[table[entry].def], q) then Some(Some(table[entry].def))
    else Search(table, zone, q, if entry + 1 == |table| then 0 else entry + 1, fuel - 1)
  }

  ghost predicate SearchEnds(table: seq<Entry>, zone: seq<Definition>, q: Question)
    requires |table| > 0 && forall s | 0 <= s < |table| && table[s].Full? :: table[s].def < |zone|
  {
    exists fuel: nat :: Search(table, zone, q, Home(Hash(q.name), |table|), fuel).Some?
  }

  /** The search ends at an empty slot at the latest. */
  lemma {:induction false} EndsAtEmpty(table: seq<Entry>, zone: seq<Definition>, q: Question, home: nat, t: nat, e: nat)
    requires forall s | 0 <= s < |table| && table[s].Full? :: table[s].def < |zone|
    requires home < |table| && e < |table| && table[e].Empty? && t <= Distance(home, e, |table|)
    ensures Search(table, zone, q, Slot(home, t, |table|), Distance(home, e, |table|) - t + 1).Some?
    decreases Distance(home, e, |table|) - t
  {
    if t < Distance(home, e, |table|) { EndsAtEmpty(table, zone, q, home, t + 1, e); }
  }

  lemma {:induction false} OneEntryRepeats(table: seq<Entry>, zone: seq<Definition>, q: Question, fuel: nat)
    requires |table| == 1 && table[0].Full? && table[0].def < |zone| && !Answers(zone[table[0].def], q)
    ensures Search(table, zone, q, 0, fuel).None?
  {
    if fuel > 0 { OneEntryRepeats(table, zone, q, fuel - 1); }
  }

  /** The search of a question ends exactly when the zone has at least two definitions, or its only
      definition answers. */
  lemma LookupEndsWhen(table: seq<Entry>, zone: seq<Definition>, slots: seq<nat>, q: Question)
    requires zone != [] && |table| == HashSize(|zone|) && Indexed(table, zone, slots) && |slots| == |zone|
    ensures SearchEnds(table, zone, q) <==> |zone| >= 2 || Answers(zone[0], q)
  {
    var home := Home(Hash(q.name), |table|);
    if |zone| >= 2 {
      var e := SomeSlotEmpty(table, zone, slots);
      EndsAtEmpty(table, zone, q, home, 0, e);
    } else {
      assert slots[0] == 0 && table[0] == Full(Hash(zone[0].hostname), 0);
      if Answers(zone[0], q) {
        assert Search(table, zone, q, home, 1).Some?;
      } else {
        forall fuel: nat ensures Search(table, zone, q, home, fuel).None? {
          OneEntryRepeats(table, zone, q, fuel);
        }
      }
    }
  }

  /** The lookup of one question, where it ends: the probing search gives the answer of the linear
      scan. */
  method Lookup(table: array<Entry>, zone: seq<Definition>, q: Question, ghost slots: seq<nat>) returns (r: Option<nat>)
    requires table.Length == HashSize(|zone|) && Indexed(table[..], zone, slots) && |slots| == |zone|
    requires |zone| >= 2 || (zone != [] && Answers(zone[0], q))
    ensures r == FirstAnswer(zone, q, 0)
    ensures r.Some? ==> r.value < |zone| && Suits(zone[r.value], q.name, q.qtype)
    ensures forall d | 0 <= d < (if r.Some? then r.value else |zone|) :: !Suits(zone[d], q.name, q.qtype)
  {
    hide Indexed, PathFull, Missed, Answers, Hash, Suits;
    FirstSuits(zone, q);
    var hash := DomainHash(q.name);
    var size := table.Length;
    var entry := hash % size;
    ghost var home, t := entry, 0;
    NothingMissed(table[..], zone, slots, q);
    while !table[entry].Empty?
      invariant t < size && entry == Slot(home, t, size) && Missed(table[..], zone, slots, q, t)
      decreases size - t
    {
      var d := table[entry].def;
      EntryIndexed(table[..], zone, slots, entry);
      var found := EntryAnswers(table[entry], hash, zone, q);
      if found {
        EarlierVisited(table[..], zone, slots, q, d, t);
        FirstIsUnique(zone, q, d);
        return Some(d);
      }
      OneMoreMissed(table[..], zone, slots, q, t);
      entry := NextSlot(entry, size);
      t := t + 1;
    }
    NoneVisited(table[..], zone, slots, q, t);
    r := None;
  }

  /** The first t slots of the probe path of the question are full and none of them answers. */
  ghost predicate Missed(table: seq<Entry>, zone: seq<Definition>, slots: seq<nat>, q: Question, t: nat) {
    && Indexed(table, zone, slots) && |slots| == |zone| && t <= |table| && |table| > 0
    && var home := Home(Hash(q.name), |table|);
       PathFull(table, home, t) && forall u | 0 <= u < t :: !Answers(zone[table[Slot(home, u, |table|)].def], q)
  }

  lemma NothingMissed(table: seq<Entry>, zone: seq<Definition>, slots: seq<nat>, q: Question)
    requires Indexed(table, zone, slots) && |slots| == |zone| && |table| > 0
    ensures Missed(table, zone, slots, q, 0)
  {
  }

  lemma EntryIndexed(table: seq<Entry>, zone: seq<Definition>, slots: seq<nat>, s: nat)
    requires Indexed(table, zone, slots) && s < |table| && table[s].Full?
    ensures table[s].def < |slots| && slots[table[s].def] == s && table[s].hash == Hash(zone[table[s].def].hostname)
  {
  }

  /** A full slot that does not answer is not the last one of the path. */
  lemma OneMoreMissed(table: seq<Entry>, zone: seq<Definition>, slots: seq<nat>, q: Question, t: nat)
    requires Missed(table, zone, slots, q, t) && t < |table| == HashSize(|zone|)
    requires |zone| >= 2 || Answers(zone[0], q)
    requires var e := table[Slot(Home(Hash(q.name), |table|), t, |table|)];
             e.Full? && e.def < |zone| && !Answers(zone[e.def], q)
    ensures t + 1 < |table| && Missed(table, zone, slots, q, t + 1)
  {
    var home := Home(Hash(q.name), |table|);
    if |zone| >= 2 {
      var e := SomeSlotEmpty(table, zone, slots);
      var far := Distance(home, e, |table|);
      assert far > t;
    }
  }

  /** The tests on one entry: the hash first, then the name, the type and the number of parts. */
  method EntryAnswers(entry: Entry, hash: nat, zone: seq<Definition>, q: Question) returns (found: bool)
    requires entry.Full? && entry.def < |zone| && hash == Hash(q.name) && entry.hash == Hash(zone[entry.def].hostname)
    ensures found == Answers(zone[entry.def], q)
  {
    var j := zone[entry.def];
    found := false;
    if entry.hash == hash {
      var differ := DomainCmp(j.hostname, q.name);
      if differ == 0 && TypeAcceptable(q.qtype, j.kind) {
        found := !(j.kind.A? && |j.parts| < 4);
      }
    }
  }

  /** Everything before the definition found that could answer has been visited. */
  lemma EarlierVisited(table: seq<Entry>, zone: seq<Definition>, slots: seq<nat>, q: Question, d: nat, t: nat)
    requires Missed(table, zone, slots, q, t) && t < |table| && d < |zone| && Answers(zone[d], q)
    requires slots[d] == Slot(Home(Hash(q.name), |table|), t, |table|)
    ensures forall c | 0 <= c < d :: !Answers(zone[c], q)
  {
    var home := Home(Hash(q.name), |table|);
    forall c | 0 <= c < d ensures !Answers(zone[c], q) {
      if Hash(zone[c].hostname) == Hash(q.name) {
        var u := Distance(home, slots[c], |table|);
        assert u < Distance(home, slots[d], |table|) == t;
        assert table[Slot(home, u, |table|)] == table[slots[c]];
      }
    }
  }

  lemma NoneVisited(table: seq<Entry>, zone: seq<Definition>, slots: seq<nat>, q: Question, t: nat)
    requires Missed(table, zone, slots, q, t) && t < |table|
    requires table[Slot(Home(Hash(q.name), |table|), t, |table|)].Empty?
    ensures FirstAnswer(zone, q, 0) == None
  {
    var home := Home(Hash(q.name), |table|);
    forall d | 0 <= d < |zone| ensures !Answers(zone[d], q) {
      if Hash(zone[d].hostname) == Hash(q.name) {
        var u := Distance(home, slots[d], |table|);
        BeforeEmpty(table, home, slots[d], Slot(home, t, |table|));
        assert Distance(home, Slot(home, t, |table|), |table|) == t;
        assert table[Slot(home, u, |table|)] == table[slots[d]];
      }
    }
  }
}
