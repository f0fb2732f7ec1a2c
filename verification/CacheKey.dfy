// framework_core_cache.rs: the bytes hashed into a core cache key.
module CacheKey {
  import opened Text
  import opened Paths
  import opened Utf8
  import opened Signature
  import opened Unflags
  import opened Relocation
  import Flags

  datatype Setup = Setup(package: string, platform: string, environment: string, profile: string)

  /** What the key holds of one source: its relative path, signature and content digest. */
  datatype Entry = Entry(path: string, signature: string, content: string)

  const VERSION := "fbuild-core-artifacts-v1"

  function Header(s: Setup): seq<string> { [VERSION, s.package, s.platform, s.environment, s.profile] }

  function EntryBytes(e: Entry): seq<Byte> {
    Fields([e.path, e.signature]) + Encode(e.content) + [0xFF]
  }

  function EntriesBytes(entries: seq<Entry>): seq<Byte> {
    if entries == [] then [] else EntryBytes(entries[0]) + EntriesBytes(entries[1..])
  }

  function KeyBytes(s: Setup, entries: seq<Entry>): seq<Byte> {
    Fields(Header(s)) + EntriesBytes(SortByPath(entries))
  }

  // ----- order ----------------------------------------------------------------

  /** The order of strings: by the first scalar value that differs, prefixes first. */
  predicate Before(a: string, b: string) {
    if b == [] then false
    else if a == [] then true
    else if a[0] != b[0] then a[0] < b[0]
    else Before(a[1..], b[1..])
  }

  /** Where a stable sort puts an entry that came before all of `sorted`. */
  function Insert(e: Entry, sorted: seq<Entry>): seq<Entry> {
    if sorted == [] then [e]
    else if Before(sorted[0].path, e.path) then [sorted[0]] + Insert(e, sorted[1..])
    else [e] + sorted
  }

  /** A stable sort by path: what `sort_by` does. */
  function SortByPath(entries: seq<Entry>): seq<Entry> {
    if entries == [] then [] else Insert(entries[0], SortByPath(entries[1..]))
  }

  lemma {:induction false} BeforeIsOrder(a: string, b: string)
    ensures !(Before(a, b) && Before(b, a))
    ensures Before(a, b) || Before(b, a) || a == b
    ensures a == b ==> !Before(a, b)
  {
    if a != [] && b != [] && a[0] == b[0] {
      BeforeIsOrder(a[1..], b[1..]);
      assert a == [a[0]] + a[1..] && b == [b[0]] + b[1..];
    }
  }

  lemma {:induction false} BeforeIsTransitive(a: string, b: string, c: string)
    requires Before(a, b) && Before(b, c)
    ensures Before(a, c)
  {
    if a != [] && b != [] && c != [] && a[0] == b[0] && b[0] == c[0] {
      BeforeIsTransitive(a[1..], b[1..], c[1..]);
    }
  }

  /** The order of byte strings: by the first byte that differs, prefixes first. */
  predicate BytesBefore(a: seq<Byte>, b: seq<Byte>) {
    if b == [] then false
    else if a == [] then true
    else if a[0] != b[0] then a[0] < b[0]
    else BytesBefore(a[1..], b[1..])
  }

  lemma {:induction false} DifferAt(a: seq<Byte>, b: seq<Byte>, k: nat)
    requires k < |a| && k < |b| && a[..k] == b[..k] && a[k] < b[k]
    ensures BytesBefore(a, b)
  {
    if k > 0 {
      assert a[0] == a[..k][0] == b[..k][0] == b[0];
      assert a[1..][..k - 1] == a[..k][1..] && b[1..][..k - 1] == b[..k][1..];
      DifferAt(a[1..], b[1..], k - 1);
    }
  }

  lemma {:induction false} SameFirst(p: seq<Byte>, x: seq<Byte>, y: seq<Byte>)
    ensures BytesBefore(p + x, p + y) == BytesBefore(x, y)
  {
    if p == [] {
      assert p + x == x && p + y == y;
    } else {
      assert (p + x)[1..] == p[1..] + x && (p + y)[1..] == p[1..] + y;
      SameFirst(p[1..], x, y);
    }
  }

  /** A smaller scalar value has smaller bytes. */
  lemma CharsBefore(a: char, b: char, x: seq<Byte>, y: seq<Byte>)
    requires a < b
    ensures BytesBefore(EncodeChar(a) + x, EncodeChar(b) + y)
  {
    var k := FirstDifference(a, b);
    var p, q := EncodeChar(a), EncodeChar(b);
    assert (p + x)[..k] == p[..k] && (q + y)[..k] == q[..k];
    DifferAt(p + x, q + y, k);
  }

  lemma HighFirst(m: nat, n: nat)
    requires m < n
    ensures m / 64 < n / 64 || (m / 64 == n / 64 && m % 64 < n % 64)
  {
  }

  lemma SixBits(m: nat)
    ensures m / 4096 == m / 64 / 64 && m / 262144 == m / 64 / 64 / 64
  {
  }

  /** The first six-bit digit of two code points that differs. */
  lemma HighestDigit(m: nat, n: nat)
    requires m < n
    ensures m / 262144 < n / 262144
            || (m / 262144 == n / 262144
                && (m / 4096 % 64 < n / 4096 % 64
                    || (m / 4096 % 64 == n / 4096 % 64
                        && (m / 64 % 64 < n / 64 % 64 || (m / 64 % 64 == n / 64 % 64 && m % 64 < n % 64)))))
  {
    SixBits(m);
    SixBits(n);
    HighFirst(m, n);
    if m / 64 < n / 64 {
      HighFirst(m / 64, n / 64);
      if m / 64 / 64 < n / 64 / 64 { HighFirst(m / 64 / 64, n / 64 / 64); }
    }
  }

  lemma LongerStartsHigher(a: char, b: char)
    requires a < b && |EncodeChar(a)| != |EncodeChar(b)|
    ensures EncodeChar(a)[0] < EncodeChar(b)[0]
  {
  }

  lemma ThreeOrFewer(a: char, b: char) returns (k: nat)
    requires a < b && |EncodeChar(a)| == |EncodeChar(b)| <= 3
    ensures var p, q := EncodeChar(a), EncodeChar(b); k < |p| && p[..k] == q[..k] && p[k] < q[k]
  {
    var p, q, m, n := EncodeChar(a), EncodeChar(b), a as int, b as int;
    HighFirst(m, n);
    Digits(m);
    Digits(n);
    if |p| == 3 && m / 64 < n / 64 {
      HighFirst(m / 64, n / 64);
      k := if p[0] != q[0] then 0 else 1;
    } else {
      k := |p| - 1;
      if |p| == 2 && m / 64 < n / 64 { k := 0; }
    }
  }

  lemma AllFour(a: char, b: char) returns (k: nat)
    requires a < b && |EncodeChar(a)| == |EncodeChar(b)| == 4
    ensures var p, q := EncodeChar(a), EncodeChar(b); k < |p| && p[..k] == q[..k] && p[k] < q[k]
  {
    var p, q, m, n := EncodeChar(a), EncodeChar(b), a as int, b as int;
    HighestDigit(m, n);
    var c, d, e, f := m / 262144, m / 4096 % 64, m / 64 % 64, m % 64;
    var c', d', e', f' := n / 262144, n / 4096 % 64, n / 64 % 64, n % 64;
    assert p == [0xF0 + c, 0x80 + d, 0x80 + e, 0x80 + f];
    assert q == [0xF0 + c', 0x80 + d', 0x80 + e', 0x80 + f'];
    hide EncodeChar;
    k := if c != c' then 0 else if d != d' then 1 else if e != e' then 2 else 3;
  }

  lemma FirstDifference(a: char, b: char) returns (k: nat)
    requires a < b
    ensures var p, q := EncodeChar(a), EncodeChar(b); k < |p| && k < |q| && p[..k] == q[..k] && p[k] < q[k]
  {
    if |EncodeChar(a)| != |EncodeChar(b)| {
      LongerStartsHigher(a, b);
      k := 0;
    } else if |EncodeChar(a)| <= 3 {
      k := ThreeOrFewer(a, b);
    } else {
      AtMostFour(a);
      k := AllFour(a, b);
    }
  }

  lemma AtMostFour(c: char)
    ensures |EncodeChar(c)| <= 4
  {
  }

  /** The sort's order of paths is that of their bytes, as the Rust standard library compares
      strings. */
  lemma {:induction false} OrderOfBytes(a: string, b: string)
    ensures Before(a, b) <==> BytesBefore(Encode(a), Encode(b))
  {
    if a != [] && b != [] {
      hide EncodeChar;
      if a[0] == b[0] {
        SameFirst(EncodeChar(a[0]), Encode(a[1..]), Encode(b[1..]));
        OrderOfBytes(a[1..], b[1..]);
      } else if a[0] < b[0] {
        CharsBefore(a[0], b[0], Encode(a[1..]), Encode(b[1..]));
      } else {
        CharsBefore(b[0], a[0], Encode(b[1..]), Encode(a[1..]));
        NotBoth(Encode(a), Encode(b));
      }
    }
  }

  lemma {:induction false} NotBoth(a: seq<Byte>, b: seq<Byte>)
    ensures !(BytesBefore(a, b) && BytesBefore(b, a))
  {
    if a != [] && b != [] { NotBoth(a[1..], b[1..]); }
  }

  lemma StaysBefore(a: string, s: string, b: string)
    requires !Before(s, a) && Before(s, b)
    ensures Before(a, b) && !Before(b, a)
  {
    BeforeIsOrder(s, a);
    if a != s { BeforeIsTransitive(a, s, b); }
    BeforeIsOrder(a, b);
  }

  /** Two insertions commute unless they are of different entries for one path. */
  lemma {:induction false} InsertsCommute(a: Entry, b: Entry, sorted: seq<Entry>)
    requires a.path == b.path ==> a == b
    ensures Insert(a, Insert(b, sorted)) == Insert(b, Insert(a, sorted))
  {
    BeforeIsOrder(a.path, b.path);
    if sorted == [] {
      InsertTwo(a, b);
    } else {
      var s := sorted[0];
      var rest := sorted[1..];
      BeforeIsOrder(s.path, a.path);
      BeforeIsOrder(s.path, b.path);
      InsertAhead(a, b, sorted);
      InsertAhead(b, a, sorted);
      if Before(s.path, a.path) && Before(s.path, b.path) {
        InsertsCommute(a, b, rest);
      } else if Before(s.path, b.path) {
        StaysBefore(a.path, s.path, b.path);
      } else if Before(s.path, a.path) {
        StaysBefore(b.path, s.path, a.path);
      }
    }
  }

  lemma InsertTwo(a: Entry, b: Entry)
    ensures Insert(a, [b]) == if Before(b.path, a.path) then [b, a] else [a, b]
  {
    assert [b][1..] == [] && Insert(a, []) == [a];
    assert [a] + [b] == [a, b];
  }

  /** Inserting `a` after `b`, by where the two belong. */
  lemma InsertAhead(a: Entry, b: Entry, sorted: seq<Entry>)
    requires sorted != []
    ensures var s, rest := sorted[0], sorted[1..];
            Insert(a, Insert(b, sorted)) ==
              if Before(s.path, b.path) then
                (if Before(s.path, a.path) then [s] + Insert(a, Insert(b, rest)) else [a] + ([s] + Insert(b, rest)))
              else if Before(b.path, a.path) then [b] + Insert(a, sorted)
              else [a] + ([b] + sorted)
  {
    var s, rest := sorted[0], sorted[1..];
    if Before(s.path, b.path) {
      assert ([s] + Insert(b, rest))[1..] == Insert(b, rest);
    } else {
      assert ([b] + sorted)[1..] == sorted;
    }
  }

  /** Entries for one path are one entry: so it is when relative paths are distinct. */
  predicate PathsDetermine(entries: seq<Entry>) {
    forall i, j :: 0 <= i < |entries| && 0 <= j < |entries| && entries[i].path == entries[j].path
      ==> entries[i] == entries[j]
  }

  function Without(entries: seq<Entry>, k: nat): seq<Entry>
    requires k < |entries|
  {
    entries[..k] + entries[k + 1..]
  }

  /** Any entry might have been inserted last. */
  lemma {:induction false} SortedLast(entries: seq<Entry>, k: nat)
    requires k < |entries| && PathsDetermine(entries)
    ensures SortByPath(entries) == Insert(entries[k], SortByPath(Without(entries, k)))
  {
    if k == 0 {
      assert Without(entries, 0) == entries[1..];
    } else {
      var more := entries[1..];
      assert PathsDetermine(more);
      SortedLast(more, k - 1);
      WithoutLater(entries, k);
      InsertsCommute(entries[0], entries[k], SortByPath(Without(more, k - 1)));
    }
  }

  lemma WithoutLater(entries: seq<Entry>, k: nat)
    requires 0 < k < |entries|
    ensures Without(entries, k) != [] && Without(entries, k)[0] == entries[0]
    ensures Without(entries, k)[1..] == Without(entries[1..], k - 1)
  {
    assert entries[..k][1..] == entries[1..][..k - 1] && entries[k + 1..] == entries[1..][k..];
  }

  lemma WithoutIsOneLess(entries: seq<Entry>, k: nat)
    requires k < |entries|
    ensures multiset(entries) == multiset{entries[k]} + multiset(Without(entries, k))
  {
    assert entries == entries[..k] + ([entries[k]] + entries[k + 1..]);
  }

  lemma DetermineWithout(entries: seq<Entry>, k: nat)
    requires k < |entries| && PathsDetermine(entries)
    ensures PathsDetermine(Without(entries, k))
  {
    var w := Without(entries, k);
    forall i, j | 0 <= i < |w| && 0 <= j < |w| && w[i].path == w[j].path ensures w[i] == w[j] {
      assert w[i] == entries[if i < k then i else i + 1];
      assert w[j] == entries[if j < k then j else j + 1];
    }
  }

  /** The first entry of `a` in a permutation of it, and what is left of both. */
  lemma FirstElsewhere(a: seq<Entry>, b: seq<Entry>) returns (k: nat)
    requires multiset(a) == multiset(b) && a != []
    ensures k < |b| && b[k] == a[0] && multiset(a[1..]) == multiset(Without(b, k))
  {
    assert a[0] in multiset(b);
    k :| 0 <= k < |b| && b[k] == a[0];
    WithoutIsOneLess(b, k);
    WithoutIsOneLess(a, 0);
    assert Without(a, 0) == a[1..];
    CancelOne(a[0], multiset(a[1..]), multiset(Without(b, k)));
  }

  lemma CancelOne<T>(x: T, a: multiset<T>, b: multiset<T>)
    requires multiset{x} + a == multiset{x} + b
    ensures a == b
  {
    assert multiset{x} + a - multiset{x} == a && multiset{x} + b - multiset{x} == b;
  }

  /** Sorting forgets the order of the sources. */
  lemma {:induction false} SortForgetsOrder(a: seq<Entry>, b: seq<Entry>)
    requires multiset(a) == multiset(b) && PathsDetermine(b)
    ensures SortByPath(a) == SortByPath(b)
  {
    assert |a| == |multiset(a)| == |b|;
    if a != [] {
      var k := FirstElsewhere(a, b);
      DetermineWithout(b, k);
      SortForgetsOrder(a[1..], Without(b, k));
      SortedLast(b, k);
    }
  }

  function OfPath(entries: seq<Entry>, p: string): seq<Entry> {
    if entries == [] then []
    else if entries[0].path == p then [entries[0]] + OfPath(entries[1..], p)
    else OfPath(entries[1..], p)
  }

  lemma {:induction false} InsertAmong(e: Entry, sorted: seq<Entry>, p: string)
    ensures OfPath(Insert(e, sorted), p) == if e.path == p then [e] + OfPath(sorted, p) else OfPath(sorted, p)
  {
    if sorted != [] && Before(sorted[0].path, e.path) {
      BeforeIsOrder(sorted[0].path, e.path);
      InsertAmong(e, sorted[1..], p);
      assert ([sorted[0]] + Insert(e, sorted[1..]))[1..] == Insert(e, sorted[1..]);
    } else {
      assert ([e] + sorted)[1..] == sorted;
    }
  }

  /** The sort is stable: it keeps the order of the entries for one path. */
  lemma {:induction false} SortIsStable(entries: seq<Entry>, p: string)
    ensures OfPath(SortByPath(entries), p) == OfPath(entries, p)
  {
    if entries != [] {
      SortIsStable(entries[1..], p);
      InsertAmong(entries[0], SortByPath(entries[1..]), p);
    }
  }

  lemma {:induction false} SomeOfPath(entries: seq<Entry>, k: nat)
    requires k < |entries|
    ensures OfPath(entries, entries[k].path) != []
  {
    if k > 0 && entries[0].path != entries[k].path { SomeOfPath(entries[1..], k - 1); }
  }

  /** Two entries for one path: some order of the sources sorts differently. */
  lemma OrderShows(entries: seq<Entry>, i: nat, j: nat) returns (other: seq<Entry>)
    requires i < |entries| && j < |entries| && entries[i].path == entries[j].path && entries[i] != entries[j]
    ensures multiset(other) == multiset(entries) && SortByPath(other) != SortByPath(entries)
  {
    var p := entries[i].path;
    SomeOfPath(entries, i);
    var k := if OfPath(entries, p)[0] == entries[i] then j else i;
    other := [entries[k]] + Without(entries, k);
    WithoutIsOneLess(entries, k);
    assert other[1..] == Without(entries, k);
    assert OfPath(other, p)[0] == entries[k];
    SortIsStable(entries, p);
    SortIsStable(other, p);
  }

  lemma {:induction false} InsertAdds(e: Entry, sorted: seq<Entry>)
    ensures multiset(Insert(e, sorted)) == multiset{e} + multiset(sorted)
  {
    if sorted != [] {
      assert sorted == [sorted[0]] + sorted[1..];
      if Before(sorted[0].path, e.path) { InsertAdds(e, sorted[1..]); }
    }
  }

  /** The sort loses and invents no entry. */
  lemma {:induction false} SortPermutes(entries: seq<Entry>)
    ensures multiset(SortByPath(entries)) == multiset(entries)
  {
    if entries != [] {
      SortPermutes(entries[1..]);
      InsertAdds(entries[0], SortByPath(entries[1..]));
      assert entries == [entries[0]] + entries[1..];
    }
  }

  predicate Ascending(s: seq<Entry>) {
    |s| > 1 ==> !Before(s[1].path, s[0].path) && Ascending(s[1..])
  }

  lemma {:induction false} InsertAscends(e: Entry, sorted: seq<Entry>)
    requires Ascending(sorted)
    ensures Ascending(Insert(e, sorted))
  {
    if sorted == [] {
    } else if Before(sorted[0].path, e.path) {
      var rest := sorted[1..];
      InsertAscends(e, rest);
      BeforeIsOrder(sorted[0].path, e.path);
      var r := [sorted[0]] + Insert(e, rest);
      assert r[1..] == Insert(e, rest);
    } else {
      assert ([e] + sorted)[1..] == sorted;
    }
  }

  /** The sort orders the entries by path. */
  lemma {:induction false} SortAscends(entries: seq<Entry>)
    ensures Ascending(SortByPath(entries))
  {
    if entries != [] {
      SortAscends(entries[1..]);
      InsertAscends(entries[0], SortByPath(entries[1..]));
    }
  }

  // ----- unique decodability --------------------------------------------------

  predicate CleanSetup(s: Setup) {
    NulFree(s.package) && NulFree(s.platform) && NulFree(s.environment) && NulFree(s.profile)
  }

  predicate CleanEntry(e: Entry) { NulFree(e.path) && NulFree(e.signature) && NulFree(e.content) }

  ghost predicate CleanEntries(entries: seq<Entry>) { forall e :: e in entries ==> CleanEntry(e) }

  /** As many fields as one knows are there are recovered together with what follows. */
  lemma {:induction false} FieldsDecode(f: seq<string>, x: seq<Byte>, g: seq<string>, y: seq<Byte>)
    requires |f| == |g| && CleanFields(f) && CleanFields(g)
    requires Fields(f) + x == Fields(g) + y
    ensures f == g && x == y
  {
    if f == [] {
      assert Fields(f) + x == x && Fields(g) + y == y;
    } else {
      FieldsTail(f, x);
      FieldsTail(g, y);
      FieldDecodes(f[0], Fields(f[1..]) + x, g[0], Fields(g[1..]) + y);
      FieldsDecode(f[1..], x, g[1..], y);
      assert f == [f[0]] + f[1..] && g == [g[0]] + g[1..];
    }
  }

  lemma FieldsTail(f: seq<string>, x: seq<Byte>)
    requires f != []
    ensures Fields(f) + x == Encode(f[0]) + [0] + (Fields(f[1..]) + x)
  {
  }

  lemma EntryDecodes(a: Entry, x: seq<Byte>, b: Entry, y: seq<Byte>)
    requires CleanEntry(a) && CleanEntry(b)
    requires EntryBytes(a) + x == EntryBytes(b) + y
    ensures a == b && x == y
  {
    EntrySplits(a, x);
    EntrySplits(b, y);
    var f, g := [a.path, a.signature], [b.path, b.signature];
    FieldsDecode(f, Encode(a.content) + [0xFF] + x, g, Encode(b.content) + [0xFF] + y);
    assert f[0] == g[0] && f[1] == g[1];
    EncodedIsClean(a.content);
    EncodedIsClean(b.content);
    SplitAtDelimiter(Encode(a.content), 0xFF, x, Encode(b.content), 0xFF, y);
    EncodeInjective(a.content, b.content);
  }

  lemma EntrySplits(a: Entry, x: seq<Byte>)
    ensures EntryBytes(a) + x == Fields([a.path, a.signature]) + (Encode(a.content) + [0xFF] + x)
  {
  }

  lemma {:induction false} EntriesDecode(a: seq<Entry>, b: seq<Entry>)
    requires CleanEntries(a) && CleanEntries(b) && EntriesBytes(a) == EntriesBytes(b)
    ensures a == b
  {
    if a != [] && b != [] {
      assert a[0] in a && b[0] in b;
      EntryDecodes(a[0], EntriesBytes(a[1..]), b[0], EntriesBytes(b[1..]));
      EntriesDecode(a[1..], b[1..]);
      assert a == [a[0]] + a[1..] && b == [b[0]] + b[1..];
    }
  }

  lemma SortedClean(entries: seq<Entry>)
    requires CleanEntries(entries)
    ensures CleanEntries(SortByPath(entries))
  {
    SortPermutes(entries);
    forall e | e in SortByPath(entries) ensures CleanEntry(e) {
      assert e in multiset(SortByPath(entries));
      assert e in multiset(entries);
    }
  }

  lemma HeaderIsClean(s: Setup)
    requires CleanSetup(s)
    ensures CleanFields(Header(s))
  {
    assert NulFree(VERSION);
  }

  lemma SameHeader(s: Setup, t: Setup)
    ensures Header(s) == Header(t) <==> s == t
  {
    var h, i := Header(s), Header(t);
    assert h[1] == s.package && h[2] == s.platform && h[3] == s.environment && h[4] == s.profile;
    assert i[1] == t.package && i[2] == t.platform && i[3] == t.environment && i[4] == t.profile;
  }

  /** The bytes of a key determine the setup and, up to the sort, every source's path,
      signature and content. */
  lemma KeyDecodes(s: Setup, a: seq<Entry>, t: Setup, b: seq<Entry>)
    requires CleanSetup(s) && CleanSetup(t) && CleanEntries(a) && CleanEntries(b)
    ensures KeyBytes(s, a) == KeyBytes(t, b) <==> s == t && SortByPath(a) == SortByPath(b)
  {
    HeaderIsClean(s);
    HeaderIsClean(t);
    SortedClean(a);
    SortedClean(b);
    var x, y := EntriesBytes(SortByPath(a)), EntriesBytes(SortByPath(b));
    if KeyBytes(s, a) == KeyBytes(t, b) {
      FieldsDecode(Header(s), x, Header(t), y);
      SameHeader(s, t);
      EntriesDecode(SortByPath(a), SortByPath(b));
    }
  }

  // ----- order of the sources -------------------------------------------------

  ghost predicate OrderIndependent(s: Setup, entries: seq<Entry>) {
    forall other :: multiset(other) == multiset(entries) ==> KeyBytes(s, other) == KeyBytes(s, entries)
  }

  lemma SomeOrderShows(s: Setup, entries: seq<Entry>)
    requires CleanSetup(s) && CleanEntries(entries) && OrderIndependent(s, entries)
    ensures PathsDetermine(entries)
  {
    forall i, j | 0 <= i < |entries| && 0 <= j < |entries| && entries[i].path == entries[j].path
      ensures entries[i] == entries[j]
    {
      if entries[i] != entries[j] {
        var other := OrderShows(entries, i, j);
        PermutedClean(other, entries);
        KeyDecodes(s, other, s, entries);
        assert false;
      }
    }
  }

  lemma PermutedClean(other: seq<Entry>, entries: seq<Entry>)
    requires CleanEntries(entries) && multiset(other) == multiset(entries)
    ensures CleanEntries(other)
  {
    forall e | e in other ensures CleanEntry(e) {
      assert e in multiset(other);
      assert e in multiset(entries);
    }
  }

  /** Permuting the sources leaves the key exactly when no two different entries share a
      relative path: the sort compares paths only and is stable. */
  lemma KeyForgetsOrder(s: Setup, entries: seq<Entry>)
    requires CleanSetup(s) && CleanEntries(entries)
    ensures OrderIndependent(s, entries) <==> PathsDetermine(entries)
  {
    if PathsDetermine(entries) {
      forall other | multiset(other) == multiset(entries) ensures KeyBytes(s, other) == KeyBytes(s, entries) {
        SortForgetsOrder(other, entries);
      }
    } else if OrderIndependent(s, entries) {
      SomeOrderShows(s, entries);
    }
  }

  // ----- the key of a project -------------------------------------------------

  /** A project as it lies on disk, as far as the key looks: `content` gives the digest of
      the file at a path. */
  datatype Checkout = Checkout(
    root: Path, compiler: Compiler, extra: Flags.LanguageExtraFlags, content: Path -> string)

  function SourcePath(source: Path, root: Path): string {
    if IsAbsolute(source) then PathArg(source, root) else source
  }

  /** The groups `artifact_cache_signature` hashes: pre-flags are none of them. */
  function HashedGroups(c: Checkout, source: Path): seq<seq<string>> {
    var unflags := c.compiler.unflags;
    [RemoveUnflagged(Driver(c.compiler, source).1, unflags), [],
     RemoveUnflagged(Flags.ForSource(c.extra, source), unflags)]
  }

  function ArtifactBytes(c: Checkout, source: Path): seq<Byte> {
    StreamBytes(Driver(c.compiler, source).0, NormalizedGroups(HashedGroups(c, source), Normalizer(c.root)))
  }

  /** One source's entry; `digest` is the hash of a signature's bytes, in hexadecimal. */
  function EntryOf(c: Checkout, source: Path, digest: seq<Byte> -> string): Entry {
    Entry(SourcePath(source, c.root), digest(ArtifactBytes(c, source)), c.content(source))
  }

  function EntriesOf(c: Checkout, sources: seq<Path>, digest: seq<Byte> -> string): (r: seq<Entry>)
    ensures |r| == |sources|
  {
    seq(|sources|, i requires 0 <= i < |sources| => EntryOf(c, sources[i], digest))
  }

  lemma EntryStep(bytes: seq<Byte>, sorted: seq<Entry>)
    requires sorted != []
    ensures bytes + EntriesBytes(sorted)
         == bytes + Encode(sorted[0].path) + [0] + Encode(sorted[0].signature) + [0]
              + Encode(sorted[0].content) + [0xFF] + EntriesBytes(sorted[1..])
  {
    var e, rest := sorted[0], EntriesBytes(sorted[1..]);
    var path, sig, content := Encode(e.path) + [0], Encode(e.signature) + [0], Encode(e.content) + [0xFF];
    TwoFields(e.path, e.signature);
    Associate(path + sig, Encode(e.content), [0xFF]);
    AssociateFour(bytes, path + sig, content, rest);
    Associate(bytes, path, sig);
    Associate(bytes, Encode(e.path), [0]);
    Associate(bytes + path, Encode(e.signature), [0]);
    Associate(bytes + path + sig, Encode(e.content), [0xFF]);
  }

  lemma TwoFields(a: string, b: string)
    ensures Fields([a, b]) == Encode(a) + [0] + (Encode(b) + [0])
  {
    assert [a, b][1..] == [b] && [b][1..] == [];
    assert Fields([b]) == Encode(b) + [0] + [];
  }

  /** The entry loop of `core_cache_key`. */
  method FeedEntries(hasher: Hasher, sorted: seq<Entry>)
    modifies hasher
    ensures hasher.bytes == old(hasher.bytes) + EntriesBytes(sorted)
  {
    ghost var total := hasher.bytes + EntriesBytes(sorted);
    assert sorted[0..] == sorted;
    var i := 0;
    while i < |sorted|
      invariant 0 <= i <= |sorted|
      invariant hasher.bytes + EntriesBytes(sorted[i..]) == total
    {
      var e := sorted[i];
      assert sorted[i..][0] == e && sorted[i..][1..] == sorted[i + 1..];
      EntryStep(hasher.bytes, sorted[i..]);
      hasher.Update(Encode(e.path));
      hasher.Update([0]);
      hasher.Update(Encode(e.signature));
      hasher.Update([0]);
      hasher.Update(Encode(e.content));
      hasher.Update([0xFF]);
      i := i + 1;
    }
    assert hasher.bytes + [] == hasher.bytes;
  }

  method FeedHeader(hasher: Hasher, fields: seq<string>)
    modifies hasher
    ensures hasher.bytes == old(hasher.bytes) + Fields(fields)
  {
    ghost var total := hasher.bytes + Fields(fields);
    assert fields[0..] == fields;
    var i := 0;
    while i < |fields|
      invariant 0 <= i <= |fields|
      invariant hasher.bytes + Fields(fields[i..]) == total
    {
      assert fields[i..] == [fields[i]] + fields[i + 1..];
      FieldsStep(hasher.bytes, fields[i], fields[i + 1..]);
      hasher.Update(Encode(fields[i]));
      hasher.Update([0]);
      i := i + 1;
    }
    assert hasher.bytes + [] == hasher.bytes;
  }

  /** `core_cache_key`, up to the digest. */
  method CoreCacheKey(s: Setup, c: Checkout, sources: seq<Path>, digest: seq<Byte> -> string)
    returns (bytes: seq<Byte>)
    ensures bytes == KeyBytes(s, EntriesOf(c, sources, digest))
  {
    var hasher := new Hasher();
    FeedHeader(hasher, Header(s));
    assert [] + Fields(Header(s)) == Fields(Header(s));
    var entries := EntriesOf(c, sources, digest);
    FeedEntries(hasher, SortByPath(entries));
    bytes := hasher.bytes;
  }

  // ----- what the key holds -----------------------------------------------------

  ghost predicate Injective(digest: seq<Byte> -> string) { forall a, b :: digest(a) == digest(b) ==> a == b }

  /** The sources of one list lie at different relative paths. */
  predicate Apart(sources: seq<Path>, root: Path) {
    forall i, j :: 0 <= i < |sources| && 0 <= j < |sources| && i != j ==>
      SourcePath(sources[i], root) != SourcePath(sources[j], root)
  }

  /** A source in the project goes into the key by its path from the root, any other one by
      its own path. */
  lemma PathInKey(root: Path, t: string, other: Path)
    requires Root(root) && t != [] && other != [] && other != root && !Under(other, root)
    ensures SourcePath(root + "/" + t, root) == t && SourcePath(other, root) == other
  {
    UnderRoot(root, t);
  }

  /** Two sources of two checkouts that a build has to tell apart by nothing. */
  predicate SameSource(c: Checkout, a: Path, d: Checkout, b: Path) {
    && SourcePath(a, c.root) == SourcePath(b, d.root)
    && c.content(a) == d.content(b)
    && Driver(c.compiler, a).0 == Driver(d.compiler, b).0
    && NormalizeGroup(RemoveUnflagged(Driver(c.compiler, a).1, c.compiler.unflags), false, Normalizer(c.root))
       == NormalizeGroup(RemoveUnflagged(Driver(d.compiler, b).1, d.compiler.unflags), false, Normalizer(d.root))
    && NormalizeGroup(RemoveUnflagged(Flags.ForSource(c.extra, a), c.compiler.unflags), false, Normalizer(c.root))
       == NormalizeGroup(RemoveUnflagged(Flags.ForSource(d.extra, b), d.compiler.unflags), false, Normalizer(d.root))
  }

  function InputsOf(c: Checkout, source: Path): Inputs {
    Inputs(Driver(c.compiler, source).0, Driver(c.compiler, source).1, [], Flags.ForSource(c.extra, source),
           c.compiler.unflags)
  }

  /** Nothing that is hashed of a source holds a NUL. */
  ghost predicate CleanSource(c: Checkout, source: Path) {
    && NulFree(SourcePath(source, c.root)) && NulFree(c.content(source))
    && CleanInputs(InputsOf(c, source), Normalizer(c.root))
  }

  ghost predicate CleanSources(c: Checkout, sources: seq<Path>) {
    forall i :: 0 <= i < |sources| ==> CleanSource(c, sources[i])
  }

  lemma ArtifactIs(c: Checkout, source: Path)
    ensures ArtifactBytes(c, source) == Of(InputsOf(c, source), Normalizer(c.root))
  {
  }

  /** Entries are equal exactly when the sources are the same. */
  lemma EntryIsSource(c: Checkout, a: Path, d: Checkout, b: Path, digest: seq<Byte> -> string)
    requires c.root == d.root && Injective(digest) && CleanSource(c, a) && CleanSource(d, b)
    ensures EntryOf(c, a, digest) == EntryOf(d, b, digest) <==> SameSource(c, a, d, b)
  {
    hide CleanInputs, NormalizeGroup, RemoveUnflagged, Driver, Of, ArtifactBytes;
    ArtifactIs(c, a);
    ArtifactIs(d, b);
    SignatureDecodes(InputsOf(c, a), InputsOf(d, b), Normalizer(c.root));
    assert digest(ArtifactBytes(c, a)) == digest(ArtifactBytes(d, b)) <==> ArtifactBytes(c, a) == ArtifactBytes(d, b);
  }

  predicate Among(x: seq<Entry>, y: seq<Entry>) { forall i :: 0 <= i < |x| ==> x[i] in y }

  predicate PathsApart(x: seq<Entry>) {
    forall i, j :: 0 <= i < |x| && 0 <= j < |x| && i != j ==> x[i].path != x[j].path
  }

  lemma {:induction false} ApartOnce(x: seq<Entry>, e: Entry)
    requires PathsApart(x)
    ensures multiset(x)[e] == if e in x then 1 else 0
  {
    if x != [] {
      var n := |x| - 1;
      assert x == x[..n] + [x[n]];
      ApartOnce(x[..n], e);
      if e == x[n] { assert e !in x[..n]; }
    }
  }

  /** Entries of different paths sort alike exactly when they are the same entries. */
  lemma SortedSame(x: seq<Entry>, y: seq<Entry>)
    requires PathsApart(x) && PathsApart(y)
    ensures SortByPath(x) == SortByPath(y) <==> Among(x, y) && Among(y, x)
  {
    SortPermutes(x);
    SortPermutes(y);
    forall e ensures (e in multiset(x) <==> e in x) && (e in multiset(y) <==> e in y) { }
    if SortByPath(x) == SortByPath(y) {
      assert multiset(x) == multiset(y);
      assert forall i :: 0 <= i < |x| ==> x[i] in multiset(y);
      assert forall i :: 0 <= i < |y| ==> y[i] in multiset(x);
    } else if Among(x, y) && Among(y, x) {
      forall e ensures multiset(x)[e] == multiset(y)[e] {
        ApartOnce(x, e);
        ApartOnce(y, e);
      }
      assert multiset(x) == multiset(y);
      SortForgetsOrder(x, y);
    }
  }

  predicate SomewhereIn(c: Checkout, a: Path, d: Checkout, sources: seq<Path>) {
    exists j :: 0 <= j < |sources| && SameSource(c, a, d, sources[j])
  }

  lemma AmongIsSources(c: Checkout, a: seq<Path>, d: Checkout, b: seq<Path>, digest: seq<Byte> -> string)
    requires c.root == d.root && Injective(digest) && CleanSources(c, a) && CleanSources(d, b)
    ensures Among(EntriesOf(c, a, digest), EntriesOf(d, b, digest))
            <==> forall i :: 0 <= i < |a| ==> SomewhereIn(c, a[i], d, b)
  {
    hide EntryOf, SameSource, CleanSource, Injective;
    var x, y := EntriesOf(c, a, digest), EntriesOf(d, b, digest);
    forall i | 0 <= i < |a| ensures x[i] in y <==> SomewhereIn(c, a[i], d, b) {
      forall j | 0 <= j < |b| ensures x[i] == y[j] <==> SameSource(c, a[i], d, b[j]) {
        EntryIsSource(c, a[i], d, b[j], digest);
      }
      if x[i] in y {
        var j :| 0 <= j < |y| && y[j] == x[i];
        assert SameSource(c, a[i], d, b[j]);
      }
      if j :| 0 <= j < |b| && SameSource(c, a[i], d, b[j]) {
        assert y[j] == x[i];
      }
    }
  }

  lemma EntriesApart(c: Checkout, sources: seq<Path>, digest: seq<Byte> -> string)
    requires Apart(sources, c.root)
    ensures PathsApart(EntriesOf(c, sources, digest))
  {
    var x := EntriesOf(c, sources, digest);
    assert forall i :: 0 <= i < |x| ==> x[i].path == SourcePath(sources[i], c.root);
  }

  lemma EntriesClean(c: Checkout, sources: seq<Path>, digest: seq<Byte> -> string)
    requires CleanSources(c, sources) && forall b :: NulFree(digest(b))
    ensures CleanEntries(EntriesOf(c, sources, digest))
  {
    hide CleanInputs, NulFree;
    var x := EntriesOf(c, sources, digest);
    forall e | e in x ensures CleanEntry(e) {
      var i :| 0 <= i < |x| && x[i] == e;
      assert CleanSource(c, sources[i]);
    }
  }

  /** The key of a project: under one root two checkouts have equal keys exactly when package,
      platform, environment and profile are the same and so is every source, in whatever order:
      its relative path, what it holds, its driver and the flags it is compiled with. */
  lemma KeyHoldsSources(s: Setup, c: Checkout, a: seq<Path>, t: Setup, d: Checkout, b: seq<Path>,
                        digest: seq<Byte> -> string)
    requires c.root == d.root && Apart(a, c.root) && Apart(b, d.root) && Injective(digest)
    requires forall x :: NulFree(digest(x))
    requires CleanSetup(s) && CleanSetup(t) && CleanSources(c, a) && CleanSources(d, b)
    ensures KeyBytes(s, EntriesOf(c, a, digest)) == KeyBytes(t, EntriesOf(d, b, digest))
            <==> && s == t
                 && (forall i :: 0 <= i < |a| ==> SomewhereIn(c, a[i], d, b))
                 && (forall j :: 0 <= j < |b| ==> SomewhereIn(d, b[j], c, a))
  {
    hide *;
    EntriesClean(c, a, digest);
    EntriesClean(d, b, digest);
    EntriesApart(c, a, digest);
    EntriesApart(d, b, digest);
    KeyDecodes(s, EntriesOf(c, a, digest), t, EntriesOf(d, b, digest));
    SortedSame(EntriesOf(c, a, digest), EntriesOf(d, b, digest));
    AmongIsSources(c, a, d, b, digest);
    AmongIsSources(d, b, c, a, digest);
  }

  // ----- moving the project ---------------------------------------------------

  /** `group` with its recognised path operands moved from `r` to `q`. */
  function MoveGroup(group: seq<string>, r: Path, q: Path): seq<string> {
    NormalizeGroup(group, false, Mover(r, q))
  }

  /** The source and the flags it is compiled with have moved with the project. */
  ghost predicate MovedSource(c: Checkout, d: Checkout, source: Path) {
    var there := Relocate(source, c.root, d.root);
    var before, after := HashedGroups(c, source), HashedGroups(d, there);
    && Carried(source, c.root, d.root)
    && Driver(d.compiler, there).0 == Driver(c.compiler, source).0
    && d.content(there) == c.content(source)
    && (forall k :: 0 <= k < 3 ==> GroupCarried(before[k], false, c.root, d.root))
    && (forall k :: 0 <= k < 3 ==> after[k] == MoveGroup(before[k], c.root, d.root))
  }

  lemma GroupsRelocate(c: Checkout, d: Checkout, source: Path)
    requires Root(c.root) && Root(d.root) && MovedSource(c, d, source)
    ensures ArtifactBytes(d, Relocate(source, c.root, d.root)) == ArtifactBytes(c, source)
  {
    var r, q := c.root, d.root;
    var before, after := HashedGroups(c, source), HashedGroups(d, Relocate(source, r, q));
    ThreeGroups(before[0], before[1], before[2], Normalizer(r));
    ThreeGroups(after[0], after[1], after[2], Normalizer(q));
    GroupRelocates(before[0], false, r, q);
    GroupRelocates(before[1], false, r, q);
    GroupRelocates(before[2], false, r, q);
    assert after[0] == MoveGroup(before[0], r, q);
    assert after[1] == MoveGroup(before[1], r, q);
    assert after[2] == MoveGroup(before[2], r, q);
  }

  lemma SourcePathRelocates(source: Path, r: Path, q: Path)
    requires Root(r) && Root(q) && Carried(source, r, q)
    ensures SourcePath(Relocate(source, r, q), q) == SourcePath(source, r)
  {
    if source != r && Under(source, r) {
      UnderRoot(q, Tail(source, r));
    }
  }

  function MoveSources(sources: seq<Path>, r: Path, q: Path): (moved: seq<Path>)
    ensures |moved| == |sources|
  {
    seq(|sources|, i requires 0 <= i < |sources| => Relocate(sources[i], r, q))
  }

  predicate Prefixed(w: string) { PrefixOf(w, 0) < |PATH_PREFIXES| }

  /** A word of a flag list or of the unflags once the project has moved. */
  function MoveWord(w: string, r: Path, q: Path): string {
    if Prefixed(w) then NormalizeFlag(w, Mover(r, q)) else Relocate(w, r, q)
  }

  function WordMover(r: Path, q: Path): string -> string { w => MoveWord(w, r, q) }

  /** Every word moves in its place, as an operand or as a flag, as it does on its own. */
  predicate Uniform(group: seq<string>, expects: bool, r: Path, q: Path) {
    group == [] ||
    (&& MoveWord(group[0], r, q) == (if expects then Relocate(group[0], r, q) else NormalizeFlag(group[0], Mover(r, q)))
     && Uniform(group[1..], !expects && IsSplitPathFlag(group[0]), r, q))
  }

  lemma {:induction false} UniformMoves(group: seq<string>, expects: bool, r: Path, q: Path)
    requires Uniform(group, expects, r, q)
    ensures NormalizeGroup(group, expects, Mover(r, q)) == Map(group, WordMover(r, q))
  {
    if group != [] { UniformMoves(group[1..], !expects && IsSplitPathFlag(group[0]), r, q); }
  }

  /** The source, its flags and the unflags have moved with the project: no flag comes to equal
      an unflag that it was not, and what stripping leaves moves word by word. */
  ghost predicate MovedFlags(c: Checkout, d: Checkout, source: Path) {
    var there, m := Relocate(source, c.root, d.root), WordMover(c.root, d.root);
    var flags, extra, unflags := Driver(c.compiler, source).1, Flags.ForSource(c.extra, source), c.compiler.unflags;
    && Carried(source, c.root, d.root)
    && Driver(d.compiler, there) == (Driver(c.compiler, source).0, Map(flags, m))
    && Flags.ForSource(d.extra, there) == Map(extra, m)
    && d.compiler.unflags == Map(unflags, m)
    && d.content(there) == c.content(source)
    && KeepsApart(flags, unflags, m) && KeepsApart(extra, unflags, m)
    && (forall k :: 0 <= k < 3 ==> GroupCarried(HashedGroups(c, source)[k], false, c.root, d.root))
    && (forall k :: 0 <= k < 3 ==> Uniform(HashedGroups(c, source)[k], false, c.root, d.root))
  }

  /** No word becomes an option that takes a value, or stops being one, by a move. */
  lemma MoveKeepsOptions(w: string, r: Path, q: Path)
    requires Root(r) && Root(q)
    ensures TakesValue(MoveWord(w, r, q)) <==> TakesValue(w)
  {
    if Prefixed(w) {
      var k := PrefixOf(w, 0);
      NormalizedByPrefix(w, Mover(r, q), 0);
      PrefixedTakesNone(w, k);
      PrefixedTakesNone(MoveWord(w, r, q), k);
    } else if w == r || Under(w, r) {
      assert w[0] == '/' && MoveWord(w, r, q)[0] == '/';
      OptionIsDashed(w);
      OptionIsDashed(MoveWord(w, r, q));
    }
  }

  lemma OptionIsDashed(w: string)
    ensures TakesValue(w) ==> w[0] == '-'
  {
  }

  lemma PrefixedTakesNone(w: string, k: nat)
    requires k < |PATH_PREFIXES| && PATH_PREFIXES[k] <= w
    ensures !TakesValue(w)
  {
    var p := PATH_PREFIXES[k];
    if k == 0 {
      assert w[1] == p[1] == 'I';
    } else {
      assert p[|p| - 1] == '=' && w[|p| - 1] == '=';
    }
  }

  lemma StrippingMoves(flags: seq<string>, unflags: seq<string>, r: Path, q: Path)
    requires Root(r) && Root(q) && KeepsApart(flags, unflags, WordMover(r, q))
    ensures RemoveUnflagged(Map(flags, WordMover(r, q)), Map(unflags, WordMover(r, q)))
         == Map(RemoveUnflagged(flags, unflags), WordMover(r, q))
  {
    var m := WordMover(r, q);
    forall u | u in unflags ensures TakesValue(m(u)) <==> TakesValue(u) { MoveKeepsOptions(u, r, q); }
    hide TakesValue, KeepsApart, MoveWord, RemoveUnflagged;
    StrippingCommutes(flags, unflags, m);
  }

  lemma MovedFlagsMove(c: Checkout, d: Checkout, source: Path)
    requires Root(c.root) && Root(d.root) && MovedFlags(c, d, source)
    ensures MovedSource(c, d, source)
  {
    var r, q := c.root, d.root;
    var there, m := Relocate(source, r, q), WordMover(r, q);
    var flags, extra, unflags := Driver(c.compiler, source).1, Flags.ForSource(c.extra, source), c.compiler.unflags;
    hide TakesValue, KeepsApart, Uniform, MoveWord, GroupCarried, RemoveUnflagged, Carried, NormalizeGroup;
    hide Driver, Root, WordMover, Relocate, Map;
    StrippingMoves(flags, unflags, r, q);
    StrippingMoves(extra, unflags, r, q);
    var before, after := HashedGroups(c, source), HashedGroups(d, there);
    forall k | 0 <= k < 3 ensures after[k] == MoveGroup(before[k], r, q) { UniformMoves(before[k], false, r, q); }
  }

  /** A project moved with its sources, their contents and its flags and unflags has the same
      key, whatever the two roots. */
  lemma KeyRelocates(s: Setup, c: Checkout, d: Checkout, sources: seq<Path>, digest: seq<Byte> -> string)
    requires Root(c.root) && Root(d.root)
    requires forall i :: 0 <= i < |sources| ==> MovedFlags(c, d, sources[i])
    ensures KeyBytes(s, EntriesOf(d, MoveSources(sources, c.root, d.root), digest))
         == KeyBytes(s, EntriesOf(c, sources, digest))
  {
    hide MovedFlags, MovedSource, KeyBytes;
    var moved := MoveSources(sources, c.root, d.root);
    var a, b := EntriesOf(c, sources, digest), EntriesOf(d, moved, digest);
    forall i | 0 <= i < |sources| ensures b[i] == a[i] {
      assert MovedFlags(c, d, sources[i]);
      MovedFlagsMove(c, d, sources[i]);
      EntryRelocates(c, d, sources[i], digest);
    }
    assert a == b;
  }

  lemma EntryRelocates(c: Checkout, d: Checkout, source: Path, digest: seq<Byte> -> string)
    requires Root(c.root) && Root(d.root) && MovedSource(c, d, source)
    ensures EntryOf(d, Relocate(source, c.root, d.root), digest) == EntryOf(c, source, digest)
  {
    GroupsRelocate(c, d, source);
    SourcePathRelocates(source, c.root, d.root);
  }
}
