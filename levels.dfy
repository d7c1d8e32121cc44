/**
 * The level resolver and the listing pages it leads to (main.go, main):
 * a fixed table gives the number of grammar-list pages per JLPT level, and
 * the crawl visits pages 1 .. pages of that level's list, in order.
 */
module Levels {
  import opened Wrappers

  /** Pages of the grammar list the site has per JLPT level. */
  const LevelTable: map<string, nat> := map["N1" := 7, "N2" := 5, "N3" := 5, "N4" := 4, "N5" := 3]

  /** The page count of a level, or None for a level the table does not know (the program then exits). */
  function LevelPages(level: string): (r: Option<nat>)
    ensures r.Some? <==> level in {"N1", "N2", "N3", "N4", "N5"}
    ensures r.Some? ==> 3 <= r.value <= 7
  {
    if level in LevelTable then Some(LevelTable[level]) else None
  }

  /** The page count of each of the five known levels. */
  lemma LevelPagesValues()
    ensures LevelPages("N1") == Some(7)
    ensures LevelPages("N2") == Some(5)
    ensures LevelPages("N3") == Some(5)
    ensures LevelPages("N4") == Some(4)
    ensures LevelPages("N5") == Some(3)
    ensures LevelPages("n1") == None && LevelPages("N6") == None && LevelPages("") == None
  {
  }

  predicate IsDigits(s: string) {
    forall i :: 0 <= i < |s| ==> '0' <= s[i] <= '9'
  }

  function DigitChar(d: nat): (c: char)
    requires d < 10
    ensures '0' <= c <= '9' && (c as int) - ('0' as int) == d
  {
    (('0' as int) + d) as char
  }

  /** The text the %d verb writes for a non-negative integer: decimal digits, no leading zero. */
  function Decimal(n: nat): (s: string)
    ensures |s| >= 1 && IsDigits(s)
    ensures s[0] == '0' ==> n == 0
    decreases n
  {
    if n < 10 then [DigitChar(n)] else Decimal(n / 10) + [DigitChar(n % 10)]
  }

  /** The number a string of decimal digits denotes. */
  function DecimalValue(s: string): nat
    requires IsDigits(s)
    decreases |s|
  {
    if s == [] then 0 else 10 * DecimalValue(s[..|s| - 1]) + ((s[|s| - 1] as int) - ('0' as int))
  }

  /** Reading back a rendered page number gives the number. */
  lemma {:induction false} DecimalRoundTrip(n: nat)
    ensures DecimalValue(Decimal(n)) == n
  {
    var s := Decimal(n);
    if n < 10 {
      assert s[..|s| - 1] == [];
    } else {
      assert s[..|s| - 1] == Decimal(n / 10);
      DecimalRoundTrip(n / 10);
    }
  }

  /** Everything of a listing URL of `level` before the page number. */
  function ListingHead(level: string): string {
    "https://jlptsensei.com/jlpt-" + level + "-grammar-list/page/"
  }

  /** The URL of page `page` of the grammar list of `level`. */
  function ListingUrl(level: string, page: nat): (url: string)
    ensures |url| >= |ListingHead(level)| + 2
    ensures url[..|ListingHead(level)|] == ListingHead(level) && url[|url| - 1] == '/'
  {
    ListingHead(level) + Decimal(page) + "/"
  }

  /** The page a listing URL of `level` names, or None when `url` is not one. */
  function PageOf(level: string, url: string): Option<nat> {
    var head := ListingHead(level);
    if |url| > |head| && url[..|head|] == head && url[|url| - 1] == '/' && IsDigits(url[|head|..|url| - 1])
    then Some(DecimalValue(url[|head|..|url| - 1]))
    else None
  }

  /** The page number can be read back from every listing URL. */
  lemma ListingUrlPage(level: string, page: nat)
    ensures PageOf(level, ListingUrl(level, page)) == Some(page)
  {
    var head, url := ListingHead(level), ListingUrl(level, page);
    assert url[..|head|] == head;
    assert url[|head|..|url| - 1] == Decimal(page);
    DecimalRoundTrip(page);
  }

  /** Different pages of one level's list have different URLs, so no page is visited twice. */
  lemma ListingUrlInjective(level: string, p: nat, q: nat)
    requires ListingUrl(level, p) == ListingUrl(level, q)
    ensures p == q
  {
    ListingUrlPage(level, p);
    ListingUrlPage(level, q);
  }

  /**
   * The listing loop: the URLs visited for a level with `pages` pages,
   * in visiting order. The k-th URL (from 0) names page k + 1.
   */
  method ListingUrls(level: string, pages: nat) returns (urls: seq<string>)
    ensures |urls| == pages
    ensures forall k :: 0 <= k < pages ==> urls[k] == ListingUrl(level, k + 1)
    ensures forall k :: 0 <= k < pages ==> PageOf(level, urls[k]) == Some(k + 1)
  {
    urls := [];
    var i := 1;
    while i <= pages
      invariant 1 <= i <= pages + 1
      invariant |urls| == i - 1
      invariant forall k :: 0 <= k < i - 1 ==> urls[k] == ListingUrl(level, k + 1)
      invariant forall k :: 0 <= k < i - 1 ==> PageOf(level, urls[k]) == Some(k + 1)
    {
      var url := ListingUrl(level, i);
      ListingUrlPage(level, i);
      urls := urls + [url];
      i := i + 1;
    }
  }

  /** The visited URLs are pairwise distinct and name increasing pages. */
  lemma ListingUrlsOrdered(level: string, urls: seq<string>, j: nat, k: nat)
    requires forall m :: 0 <= m < |urls| ==> urls[m] == ListingUrl(level, m + 1)
    requires j < k < |urls|
    ensures urls[j] != urls[k]
    ensures PageOf(level, urls[j]).Some? && PageOf(level, urls[k]).Some?
    ensures PageOf(level, urls[j]).value < PageOf(level, urls[k]).value
  {
    var uj, uk := urls[j], urls[k];
    assert uj == ListingUrl(level, j + 1);
    assert uk == ListingUrl(level, k + 1);
    ListingUrlPage(level, j + 1);
    ListingUrlPage(level, k + 1);
    assert PageOf(level, uj) != PageOf(level, uk);
  }
}
