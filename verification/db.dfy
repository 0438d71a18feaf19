/**
 * The paper store of api/db.js: how a paper's `uuid` is derived from its arXiv id, its PDF
 * URL or its row id (with the 32-bit string hash of the URL), the backfill `migrateUuid`
 * that gives a uuid to every row still lacking one, and the key constraints of the
 * `papers` and `paper_images` tables.
 */
module Db {
  import opened Wrappers
  import opened Text

  // ----- 32-bit integer arithmetic of JavaScript -----

  const TwoTo31: int := 0x8000_0000
  const TwoTo32: int := 0x1_0000_0000

  predicate IsInt32(x: int) {
    -TwoTo31 <= x < TwoTo31
  }

  /** ECMAScript ToInt32: the signed 32-bit integer congruent to `x` modulo 2^32. */
  function ToInt32(x: int): (r: int)
    ensures IsInt32(r)
    ensures r % TwoTo32 == x % TwoTo32
    ensures IsInt32(x) ==> r == x
  {
    var m := x % TwoTo32;
    if m >= TwoTo31 then m - TwoTo32 else m
  }

  lemma ToInt32Congruent(x: int, y: int)
    requires x % TwoTo32 == y % TwoTo32
    ensures ToInt32(x) == ToInt32(y)
  {
  }

  lemma ModScale(a: int, b: int, k: int)
    requires a % TwoTo32 == b % TwoTo32
    ensures (k * a) % TwoTo32 == (k * b) % TwoTo32
  {
    var q := a / TwoTo32 - b / TwoTo32;
    assert a - b == TwoTo32 * q;
    assert k * a == k * b + TwoTo32 * (k * q);
  }

  lemma ModSum(a: int, b: int, c: int, d: int)
    requires a % TwoTo32 == c % TwoTo32 && b % TwoTo32 == d % TwoTo32
    ensures (a + b) % TwoTo32 == (c + d) % TwoTo32
  {
    var q := a / TwoTo32 - c / TwoTo32;
    var p := b / TwoTo32 - d / TwoTo32;
    assert a + b == c + d + TwoTo32 * (q + p);
  }

  /** JavaScript `h << 5`: ToInt32 of the operand, shifted, the low 32 bits read as signed. */
  function ShiftLeft5(h: int): (r: int)
    ensures IsInt32(r)
    ensures r % TwoTo32 == (32 * h) % TwoTo32
  {
    ModScale(ToInt32(h), h, 32);
    ToInt32(ToInt32(h) * 32)
  }

  /**
   * One turn of the loop body of api/db.js:24-26:
   * `hash = ((hash << 5) - hash) + char; hash = hash & hash;`.
   * The sum is exact in double precision (its magnitude stays far below 2^53), and
   * `x & x` is ToInt32(x).
   */
  function HashStep(h: int, c: char): (r: int)
    ensures IsInt32(r)
  {
    ToInt32(ShiftLeft5(h) - h + c as int)
  }

  /** One step is `31 * h + c` reduced to a signed 32-bit value. */
  lemma HashStepIsMul31(h: int, c: char)
    ensures HashStep(h, c) == ToInt32(31 * h + c as int)
  {
    var s := ShiftLeft5(h);
    ModSum(s, -h + c as int, 32 * h, -h + c as int);
    assert s - h + c as int == s + (-h + c as int);
    assert 31 * h + c as int == 32 * h + (-h + c as int);
    ToInt32Congruent(s - h + c as int, 31 * h + c as int);
  }

  /** The hash of api/db.js:22-27 after the whole string, as a left fold of `HashStep`. */
  function UrlHash(s: string): (h: int)
    ensures IsInt32(h)
  {
    if s == [] then 0 else HashStep(UrlHash(s[..|s| - 1]), s[|s| - 1])
  }

  /** The polynomial string hash: sum of s[i] * 31^(|s|-1-i), unreduced. */
  function PolyHash(s: string): int {
    if s == [] then 0 else 31 * PolyHash(s[..|s| - 1]) + s[|s| - 1] as int
  }

  /** The 32-bit loop computes the polynomial hash modulo 2^32, read as two's complement. */
  lemma {:induction false} UrlHashIsPolyHash(s: string)
    ensures UrlHash(s) == ToInt32(PolyHash(s))
  {
    if s != [] {
      var p, c := s[..|s| - 1], s[|s| - 1];
      var h := UrlHash(p);
      UrlHashIsPolyHash(p);
      HashStepIsMul31(h, c);
      assert h % TwoTo32 == PolyHash(p) % TwoTo32;
      ModScale(h, PolyHash(p), 31);
      ModSum(31 * h, c as int, 31 * PolyHash(p), c as int);
      ToInt32Congruent(31 * h + c as int, 31 * PolyHash(p) + c as int);
    }
  }

  /** The loop of api/db.js:22-27 as it runs. */
  method ComputeUrlHash(url: string) returns (hash: int)
    ensures hash == UrlHash(url)
  {
    hash := 0;
    for i := 0 to |url|
      invariant hash == UrlHash(url[..i])
    {
      var code := url[i] as int;
      hash := ShiftLeft5(hash) - hash + code;
      hash := ToInt32(hash);
      assert url[..i + 1][..i] == url[..i];
    }
    assert url[..|url|] == url;
  }

  /** JavaScript `Math.abs`. */
  function Abs(x: int): nat {
    if x < 0 then -x else x
  }

  // ----- Identity derivation -----

  const ArxivPrefix: string := "arxiv_"
  const PdfPrefix: string := "pdf_"
  const LegacyPrefix: string := "legacy_"
  /** The arXiv column value that stands for "no arXiv id, uploaded PDF". */
  const PdfSentinel: string := "PDF"

  /** A row of the `papers` table (api/db.js:44-60); NULL columns are `None`. */
  datatype PaperRow = PaperRow(
    uuid: Option<string>,
    title: Option<string>,
    arxiv: Option<string>,
    pdfUrl: Option<string>,
    date: Option<string>,
    parsed: int,
    original: Option<string>,
    translated: Option<string>,
    analysis: Option<string>,
    peerReview: Option<string>,
    summary: Option<string>,
    tags: Option<string>,
    createdAt: Option<string>,
    updatedAt: Option<string>)

  /** The first branch of api/db.js:18 applies: a truthy arXiv id other than the sentinel. */
  predicate FromArxiv(row: PaperRow) {
    Truthy(row.arxiv) && row.arxiv.value != PdfSentinel
  }

  /** `'pdf_' + Math.abs(hash).toString(16)` of api/db.js:28. */
  function UrlUuid(url: string): string {
    PdfPrefix + NatToString(Abs(UrlHash(url)), 16)
  }

  /**
   * The uuid api/db.js:17-31 gives the row with id `id` when `Date.now()` reads `now`.
   * The prefix tells which branch produced it, in both directions.
   */
  function DeriveUuid(id: nat, row: PaperRow, now: nat): (uuid: string)
    ensures |uuid| > 0
    ensures HasPrefix(uuid, ArxivPrefix) <==> FromArxiv(row)
    ensures HasPrefix(uuid, PdfPrefix) <==> !FromArxiv(row) && Truthy(row.pdfUrl)
    ensures HasPrefix(uuid, LegacyPrefix) <==> !FromArxiv(row) && !Truthy(row.pdfUrl)
  {
    var uuid :=
      if FromArxiv(row) then ArxivPrefix + row.arxiv.value
      else if Truthy(row.pdfUrl) then UrlUuid(row.pdfUrl.value)
      else LegacyPrefix + NatToString(id, 10) + "_" + NatToString(now, 10);
    assert uuid[0] == if FromArxiv(row) then 'a' else if Truthy(row.pdfUrl) then 'p' else 'l';
    uuid
  }

  /**
   * An arXiv-derived uuid is `arxiv_` followed by the arXiv id itself: it depends on
   * nothing else, and two such uuids are equal exactly when the arXiv ids are.
   */
  lemma ArxivUuidIsTheArxivId(id1: nat, row1: PaperRow, now1: nat, id2: nat, row2: PaperRow, now2: nat)
    requires FromArxiv(row1) && FromArxiv(row2)
    ensures DeriveUuid(id1, row1, now1)[|ArxivPrefix|..] == row1.arxiv.value
    ensures DeriveUuid(id1, row1, now1) == DeriveUuid(id2, row2, now2) <==> row1.arxiv == row2.arxiv
  {
    var u1, u2 := DeriveUuid(id1, row1, now1), DeriveUuid(id2, row2, now2);
    assert u1[|ArxivPrefix|..] == row1.arxiv.value;
    assert u2[|ArxivPrefix|..] == row2.arxiv.value;
  }

  /**
   * A URL-derived uuid is `pdf_` followed by 1 to 8 lower-case hex digits whose value is
   * |hash| (at most 2^31); it depends on the URL alone.
   */
  lemma PdfUuidShape(id: nat, row: PaperRow, now: nat)
    requires !FromArxiv(row) && Truthy(row.pdfUrl)
    ensures var uuid := DeriveUuid(id, row, now);
      var digits := uuid[|PdfPrefix|..];
      && uuid == UrlUuid(row.pdfUrl.value)
      && 1 <= |digits| <= 8
      && (forall i :: 0 <= i < |digits| ==> IsDigit(digits[i], 16))
      && ParseNat(digits, 16) == Abs(UrlHash(row.pdfUrl.value)) <= TwoTo31
  {
    var n := Abs(UrlHash(row.pdfUrl.value));
    var digits := NatToString(n, 16);
    assert DeriveUuid(id, row, now)[|PdfPrefix|..] == digits;
    assert Pow(16, 8) == TwoTo32 by {
      assert Pow(16, 2) == 256;
      assert Pow(16, 4) == 65536 by { assert Pow(16, 4) == 16 * (16 * Pow(16, 2)); }
      assert Pow(16, 8) == 16 * (16 * (16 * (16 * Pow(16, 4))));
    }
    NatToStringLength(n, 16, 8);
    NatToStringDigits(n, 16);
    NatToStringRoundTrip(n, 16);
  }

  /** `Math.abs(-2^31).toString(16)` is "80000000": the one hash whose absolute value leaves the int32 range. */
  lemma MinInt32Hex()
    ensures NatToString(Abs(-TwoTo31), 16) == "80000000"
  {
    assert NatToString(8, 16) == "8";
    assert NatToString(0x80, 16) == "80";
    assert NatToString(0x800, 16) == "800";
    assert NatToString(0x8000, 16) == "8000";
    assert NatToString(0x80000, 16) == "80000";
    assert NatToString(0x800000, 16) == "800000";
    assert NatToString(0x8000000, 16) == "8000000";
  }

  lemma DigitsWithoutUnderscore(n: nat)
    ensures forall i :: 0 <= i < |NatToString(n, 10)| ==> NatToString(n, 10)[i] != '_'
  {
    NatToStringDigits(n, 10);
  }

  /** `a + "_" + b == c + "_" + d` splits the same way when `a` and `c` hold no underscore. */
  lemma SplitAtUnderscore(a: string, b: string, c: string, d: string)
    requires forall i :: 0 <= i < |a| ==> a[i] != '_'
    requires forall i :: 0 <= i < |c| ==> c[i] != '_'
    requires a + "_" + b == c + "_" + d
    ensures a == c && b == d
  {
    var s := a + "_" + b;
    var t := c + "_" + d;
    assert s[|a|] == '_' && t[|c|] == '_';
    assert forall k :: 0 <= k < |c| ==> t[k] == c[k];
    assert forall k :: 0 <= k < |a| ==> s[k] == a[k];
    assert a == s[..|a|];
    assert c == (c + "_" + d)[..|c|];
    assert b == s[|a| + 1..];
    assert d == (c + "_" + d)[|c| + 1..];
  }

  /**
   * A legacy uuid spells out the row id and the clock reading: two legacy uuids are equal
   * exactly when both the row ids and the clock readings are.
   */
  lemma LegacyUuidsDistinct(id1: nat, row1: PaperRow, now1: nat, id2: nat, row2: PaperRow, now2: nat)
    requires !FromArxiv(row1) && !Truthy(row1.pdfUrl)
    requires !FromArxiv(row2) && !Truthy(row2.pdfUrl)
    ensures DeriveUuid(id1, row1, now1) == DeriveUuid(id2, row2, now2) <==> id1 == id2 && now1 == now2
  {
    var u1, u2 := DeriveUuid(id1, row1, now1), DeriveUuid(id2, row2, now2);
    if u1 == u2 {
      var a, b := NatToString(id1, 10), NatToString(now1, 10);
      var c, d := NatToString(id2, 10), NatToString(now2, 10);
      assert u1 == LegacyPrefix + (a + "_" + b);
      assert u2 == LegacyPrefix + (c + "_" + d);
      assert a + "_" + b == c + "_" + d by {
        assert u1[|LegacyPrefix|..] == a + "_" + b;
        assert u2[|LegacyPrefix|..] == c + "_" + d;
      }
      DigitsWithoutUnderscore(id1);
      DigitsWithoutUnderscore(id2);
      SplitAtUnderscore(a, b, c, d);
      NatToStringInjective(id1, id2, 10);
      NatToStringInjective(now1, now2, 10);
    }
  }

  // ----- The papers table and the backfill -----

  /** `WHERE uuid IS NULL OR uuid = ''` of api/db.js:11. */
  predicate NeedsUuid(row: PaperRow) {
    row.uuid.None? || row.uuid == Some("")
  }

  /** `uuid TEXT UNIQUE` (api/db.js:46): no two rows share a non-NULL uuid. */
  ghost predicate UniqueUuids(rows: map<nat, PaperRow>) {
    forall i, j :: i in rows && j in rows && i != j && rows[i].uuid.Some? ==> rows[i].uuid != rows[j].uuid
  }

  /** Some row other than `id` already holds `uuid`. */
  predicate HeldByOther(rows: map<nat, PaperRow>, id: nat, uuid: string) {
    exists j | j in rows :: j != id && rows[j].uuid == Some(uuid)
  }

  /** A uuid held by a row survives an update of a row that had none. */
  lemma HeldSurvives(rows: map<nat, PaperRow>, x: nat, r: PaperRow, id: nat, uuid: string)
    requires HeldByOther(rows, id, uuid) && uuid != ""
    requires x in rows && NeedsUuid(rows[x])
    ensures HeldByOther(rows[x := r], id, uuid)
  {
    var j :| j in rows && j != id && rows[j].uuid == Some(uuid);
    assert j != x;
    assert rows[x := r][j] == rows[j];
  }

  /** The `papers` table, keyed by row id. */
  class PaperTable {
    var rows: map<nat, PaperRow>

    ghost predicate Valid()
      reads this
    {
      UniqueUuids(rows)
    }

    constructor (initial: map<nat, PaperRow>)
      requires UniqueUuids(initial)
      ensures Valid() && rows == initial
    {
      rows := initial;
    }

    /**
     * `UPDATE papers SET uuid = ? WHERE id = ?` (api/db.js:33): refused by the UNIQUE
     * constraint when another row holds the uuid; a missing id matches nothing.
     */
    method SetUuid(id: nat, uuid: string) returns (ok: bool)
      requires Valid()
      modifies this
      ensures Valid()
      ensures ok <==> id !in old(rows) || !HeldByOther(old(rows), id, uuid)
      ensures rows == if ok && id in old(rows) then old(rows)[id := old(rows)[id].(uuid := Some(uuid))]
                      else old(rows)
    {
      if id !in rows {
        return true;
      }
      if HeldByOther(rows, id, uuid) {
        return false;
      }
      rows := rows[id := rows[id].(uuid := Some(uuid))];
      ok := true;
    }

    /**
     * `migrateUuid` (api/db.js:10-39) with `Date.now()` reading `now`. The rows the SELECT
     * returns are visited in an order SQL leaves open, so the method visits them in any
     * order. Afterwards every row that lacked a uuid has its derived uuid, unless another
     * row already holds that uuid (the UPDATE then fails and the row is left as it was);
     * every other row, and every column but `uuid`, is unchanged.
     */
    method MigrateUuid(now: nat)
      requires Valid()
      modifies this
      ensures Valid()
      ensures rows.Keys == old(rows).Keys
      ensures forall id :: id in rows && !NeedsUuid(old(rows)[id]) ==> rows[id] == old(rows)[id]
      ensures forall id :: id in rows && NeedsUuid(old(rows)[id]) ==>
                var uuid := DeriveUuid(id, old(rows)[id], now);
                || rows[id] == old(rows)[id].(uuid := Some(uuid))
                || (rows[id] == old(rows)[id] && HeldByOther(rows, id, uuid))
    {
      var pending := set id | id in rows && NeedsUuid(rows[id]);
      while pending != {}
        invariant Valid()
        invariant rows.Keys == old(rows).Keys
        invariant forall id :: id in rows && !NeedsUuid(old(rows)[id]) ==> rows[id] == old(rows)[id]
        invariant forall id :: id in pending ==> id in rows && NeedsUuid(old(rows)[id]) && rows[id] == old(rows)[id]
        invariant forall id :: id in rows && NeedsUuid(old(rows)[id]) && id !in pending ==>
                    var uuid := DeriveUuid(id, old(rows)[id], now);
                    || rows[id] == old(rows)[id].(uuid := Some(uuid))
                    || (rows[id] == old(rows)[id] && HeldByOther(rows, id, uuid))
        decreases pending
      {
        var id :| id in pending;
        var uuid := DeriveUuid(id, rows[id], now);
        ghost var before := rows;
        var ok := SetUuid(id, uuid);
        forall other | other in rows && NeedsUuid(old(rows)[other]) && other !in pending && other != id
          ensures var u := DeriveUuid(other, old(rows)[other], now);
                  || rows[other] == old(rows)[other].(uuid := Some(u))
                  || (rows[other] == old(rows)[other] && HeldByOther(rows, other, u))
        {
          var u := DeriveUuid(other, old(rows)[other], now);
          if ok && before[other] == old(rows)[other] && HeldByOther(before, other, u) {
            HeldSurvives(before, id, before[id].(uuid := Some(uuid)), other, u);
          }
        }
        pending := pending - {id};
      }
    }
  }

  // ----- The image table -----

  /** The primary key `(paper_uuid, filename)` of `paper_images` (api/db.js:66-73). */
  datatype ImageKey = ImageKey(paperUuid: string, filename: string)

  datatype ImageRow = ImageRow(data: seq<bv8>, mime: Option<string>)

  /** An INSERT into `paper_images`: refused when the key is taken, otherwise adds one row. */
  function InsertImage(images: map<ImageKey, ImageRow>, paperUuid: string, filename: string, row: ImageRow)
    : (r: Option<map<ImageKey, ImageRow>>)
    ensures r.Some? <==> ImageKey(paperUuid, filename) !in images
    ensures r.Some? ==> r.value.Keys == images.Keys + {ImageKey(paperUuid, filename)}
    ensures r.Some? ==> r.value[ImageKey(paperUuid, filename)] == row
    ensures r.Some? ==> forall k :: k in images ==> r.value[k] == images[k]
  {
    var key := ImageKey(paperUuid, filename);
    if key in images then None else Some(images[key := row])
  }

  /** The same filename under two different paper uuids is stored twice without collision. */
  lemma SameFilenameTwoPapers(images: map<ImageKey, ImageRow>, u1: string, u2: string, f: string, a: ImageRow, b: ImageRow)
    requires u1 != u2
    requires ImageKey(u1, f) !in images && ImageKey(u2, f) !in images
    ensures InsertImage(images, u1, f, a).Some?
    ensures var once := InsertImage(images, u1, f, a).value;
            var twice := InsertImage(once, u2, f, b);
            twice.Some? && twice.value[ImageKey(u1, f)] == a && twice.value[ImageKey(u2, f)] == b
  {
  }
}
