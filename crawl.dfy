/**
 * Model of `crawl.py`, the proposal crawler, over what the browser shows it:
 * the listing page is a sequence of snapshots (page height and rendered
 * proposal links), one before scrolling and one after each scroll, and each
 * proposal page is the texts its selectors return. The session itself,
 * waiting and sleeping are not modelled.
 */
module Crawl {
  import opened Wrappers
  import opened PyText

  /** A rendered `a[href*='proposal/']` element: its visible text and its `href` attribute. */
  datatype Element = Element(text: string, href: string)

  /** The listing page at one moment: `document.body.scrollHeight` and the proposal links rendered. */
  datatype Snapshot = Snapshot(height: int, links: seq<Element>)

  /** The test inside `is_kip1_present` for one link text. */
  predicate IsKip1Text(text: string) {
    var t := Strip(text);
    Contains(t, "KIP-1 ") || t == "KIP-1"
  }

  /** A text with no `K` after its first character, that does not start with `KIP-1 `, does not contain it. */
  lemma NoKip1Prefix(t: string)
    requires forall i :: 0 < i < |t| ==> t[i] != 'K'
    requires !StartsWith(t, "KIP-1 ")
    ensures !Contains(t, "KIP-1 ")
  {
    ContainsSpec(t, "KIP-1 ");
    forall i: nat ensures !OccursAt(t, "KIP-1 ", i) {
      if 0 < i && i + 6 <= |t| {
        assert t[i..i + 6][0] == t[i];
      }
    }
  }

  /** The bare title `KIP-1` is recognised. */
  lemma Kip1Bare()
    ensures IsKip1Text("KIP-1")
  {
    StripUnpadded("KIP-1");
  }

  /** `KIP-1` followed by a space and a title is recognised. */
  lemma Kip1WithTitle()
    ensures IsKip1Text("KIP-1 Launch")
  {
    var t := "KIP-1 Launch";
    StripUnpadded(t);
    ContainsSpec(t, "KIP-1 ");
    assert OccursAt(t, "KIP-1 ", 0);
  }

  /** Surrounding whitespace is stripped before the test. */
  lemma Kip1Padded()
    ensures IsKip1Text(" KIP-1\n")
  {
    assert LStrip(" KIP-1\n") == LStrip("KIP-1\n") by {
      assert " KIP-1\n"[1..] == "KIP-1\n";
    }
    assert RStrip("KIP-1\n") == RStrip("KIP-1") by {
      assert "KIP-1\n"[..5] == "KIP-1";
    }
    StripUnpadded("KIP-1");
  }

  /** `KIP-10` is not taken for KIP-1. */
  lemma Kip10Rejected()
    ensures !IsKip1Text("KIP-10")
  {
    StripUnpadded("KIP-10");
    NoKip1Prefix("KIP-10");
  }

  /** Nor is `KIP-1` followed by a colon: the test wants a space or nothing after the number. */
  lemma Kip1ColonRejected()
    ensures !IsKip1Text("KIP-1: Launch")
  {
    var t := "KIP-1: Launch";
    StripUnpadded(t);
    assert t[5] == ':';
    NoKip1Prefix(t);
  }

  /** Some rendered link passes the KIP-1 test. */
  predicate Kip1Listed(links: seq<Element>) {
    exists i :: 0 <= i < |links| && IsKip1Text(links[i].text)
  }

  /** `is_kip1_present`: scan the rendered links and stop at the first that passes the test. */
  method IsKip1Present(links: seq<Element>) returns (found: bool)
    ensures found == Kip1Listed(links)
  {
    for i := 0 to |links|
      invariant forall j :: 0 <= j < i ==> !IsKip1Text(links[j].text)
    {
      if IsKip1Text(links[i].text) {
        return true;
      }
    }
    return false;
  }

  /**
   * The listing page after `k` scrolls: `initial` before any, then the
   * observed snapshots; once they run out the page no longer changes.
   */
  function PageAt(initial: Snapshot, later: seq<Snapshot>, k: nat): Snapshot {
    if k == 0 then initial
    else if k <= |later| then later[k - 1]
    else if later == [] then initial
    else later[|later| - 1]
  }

  /** The loop leaves after scroll `k`: KIP-1 is now listed, or the height did not change. */
  predicate StopsAt(initial: Snapshot, later: seq<Snapshot>, k: nat) {
    k >= 1 && (Kip1Listed(PageAt(initial, later, k).links)
               || PageAt(initial, later, k).height == PageAt(initial, later, k - 1).height)
  }

  /** Past the last observation the page is static, so the loop leaves there at the latest. */
  lemma StopsPastEnd(initial: Snapshot, later: seq<Snapshot>)
    ensures StopsAt(initial, later, |later| + 1)
  {
  }

  /** The first scroll at or after `k` where the loop leaves. */
  function FirstStopFrom(initial: Snapshot, later: seq<Snapshot>, k: nat): (n: nat)
    requires 1 <= k <= |later| + 1
    ensures k <= n <= |later| + 1 && StopsAt(initial, later, n)
    ensures forall j :: k <= j < n ==> !StopsAt(initial, later, j)
    decreases |later| + 1 - k
  {
    if StopsAt(initial, later, k) || k == |later| + 1 then k
    else FirstStopFrom(initial, later, k + 1)
  }

  /**
   * How many times the loop scrolls: none when KIP-1 is listed at the start,
   * otherwise the earliest scroll after which it is listed or the height
   * stayed the same.
   */
  function ScrollStop(initial: Snapshot, later: seq<Snapshot>): (n: nat)
    ensures Kip1Listed(initial.links) ==> n == 0
    ensures !Kip1Listed(initial.links) ==>
              1 <= n <= |later| + 1 && StopsAt(initial, later, n)
              && forall j :: 1 <= j < n ==> !StopsAt(initial, later, j)
  {
    if Kip1Listed(initial.links) then 0 else FirstStopFrom(initial, later, 1)
  }

  /** The stopping scroll is the only one that stops with none stopping before it. */
  lemma ScrollStopUnique(initial: Snapshot, later: seq<Snapshot>, k: nat)
    requires !Kip1Listed(initial.links) && StopsAt(initial, later, k)
    requires forall j :: 1 <= j < k ==> !StopsAt(initial, later, j)
    ensures ScrollStop(initial, later) == k
  {
  }

  /**
   * The scroll loop: check the page, then scroll until KIP-1 is listed or a
   * scroll leaves the height unchanged. Returns the number of scrolls,
   * whether KIP-1 was found, and the page as it is when the loop ends.
   */
  method ScrollForKip1(initial: Snapshot, later: seq<Snapshot>) returns (scrollCount: nat, kip1Found: bool, page: Snapshot)
    ensures scrollCount == ScrollStop(initial, later)
    ensures page == PageAt(initial, later, scrollCount)
    ensures kip1Found == Kip1Listed(page.links)
  {
    page := initial;
    var lastHeight := page.height;
    kip1Found := IsKip1Present(page.links);
    scrollCount := 0;
    StopsPastEnd(initial, later);
    while !kip1Found
      invariant scrollCount <= |later| + 1
      invariant page == PageAt(initial, later, scrollCount) && lastHeight == page.height
      invariant kip1Found == Kip1Listed(page.links)
      invariant forall j :: 1 <= j < scrollCount ==> !StopsAt(initial, later, j)
      invariant scrollCount >= 1 && !kip1Found ==> !StopsAt(initial, later, scrollCount)
      invariant scrollCount > 0 ==> !Kip1Listed(initial.links)
      decreases |later| + 1 - scrollCount
    {
      // window.scrollTo(0, document.body.scrollHeight), then read the page again
      scrollCount := scrollCount + 1;
      page := PageAt(initial, later, scrollCount);
      var newHeight := page.height;
      kip1Found := IsKip1Present(page.links);
      if newHeight == lastHeight && !kip1Found {
        break;
      }
      lastHeight := newHeight;
    }
    if scrollCount > 0 {
      ScrollStopUnique(initial, later, scrollCount);
    }
  }

  /**
   * Two runs over a listing whose links `a` are not KIP-1 and `b` is: when
   * `b` renders after the second scroll the loop stops there, and when the
   * height stops growing first the loop stops after that scroll without it.
   */
  lemma ScrollScenarios(a: Element, b: Element)
    requires !IsKip1Text(a.text) && IsKip1Text(b.text)
    ensures ScrollStop(Snapshot(1000, [a]), [Snapshot(2000, [a, a]), Snapshot(3000, [a, a, b]), Snapshot(3000, [a, a, b])]) == 2
    ensures ScrollStop(Snapshot(1000, [a]), [Snapshot(2000, [a, a]), Snapshot(2000, [a, a]), Snapshot(3000, [a, a, b])]) == 2
  {
    var initial := Snapshot(1000, [a]);
    assert !Kip1Listed(initial.links);
    var grows := [Snapshot(2000, [a, a]), Snapshot(3000, [a, a, b]), Snapshot(3000, [a, a, b])];
    assert !Kip1Listed(grows[0].links);
    assert !StopsAt(initial, grows, 1);
    assert Kip1Listed(grows[1].links) by {
      assert grows[1].links[2] == b;
    }
    ScrollStopUnique(initial, grows, 2);
    var stalls := [Snapshot(2000, [a, a]), Snapshot(2000, [a, a]), Snapshot(3000, [a, a, b])];
    assert !StopsAt(initial, stalls, 1);
    assert StopsAt(initial, stalls, 2);
    ScrollStopUnique(initial, stalls, 2);
  }

  /** A candidate proposal: the stripped link text and the `href`. */
  datatype Link = Link(text: string, href: string)

  /** The element is a KIP link: its stripped text starts with `KIP`. */
  predicate IsKipLink(e: Element) {
    StartsWith(Strip(e.text), "KIP")
  }

  /** `kip_links`: the KIP links of the page, in render order, duplicates kept. */
  function KipLinks(elements: seq<Element>): (links: seq<Link>)
    ensures |links| <= |elements|
    ensures forall k :: 0 <= k < |links| ==> StartsWith(links[k].text, "KIP")
  {
    if elements == [] then []
    else
      var e := elements[|elements| - 1];
      KipLinks(elements[..|elements| - 1]) + (if IsKipLink(e) then [Link(Strip(e.text), e.href)] else [])
  }

  /** Element `e` yields link `l`: it is a KIP link, and `l` is its stripped text with its `href`. */
  predicate Gives(e: Element, l: Link) {
    IsKipLink(e) && l == Link(Strip(e.text), e.href)
  }

  /** Every collected link comes from an element of the page. */
  lemma {:induction false} KipLinksSound(elements: seq<Element>, l: Link)
    requires l in KipLinks(elements)
    ensures exists i :: 0 <= i < |elements| && Gives(elements[i], l)
  {
    var n := |elements| - 1;
    var front := elements[..n];
    var e := elements[n];
    assert KipLinks(elements) == KipLinks(front) + (if IsKipLink(e) then [Link(Strip(e.text), e.href)] else []);
    if l in KipLinks(front) {
      KipLinksSound(front, l);
      var i :| 0 <= i < |front| && Gives(front[i], l);
      assert elements[i] == front[i];
    } else {
      assert Gives(elements[n], l);
    }
  }

  /** Every KIP link of the page is collected. */
  lemma {:induction false} KipLinksComplete(elements: seq<Element>, i: nat)
    requires i < |elements| && IsKipLink(elements[i])
    ensures Link(Strip(elements[i].text), elements[i].href) in KipLinks(elements)
  {
    var n := |elements| - 1;
    var front := elements[..n];
    var e := elements[n];
    assert KipLinks(elements) == KipLinks(front) + (if IsKipLink(e) then [Link(Strip(e.text), e.href)] else []);
    if i < n {
      assert front[i] == elements[i];
      KipLinksComplete(front, i);
    }
  }

  /** A link is collected exactly when some element of the page yields it. */
  lemma KipLinksMembers(elements: seq<Element>, l: Link)
    ensures l in KipLinks(elements) <==> exists i :: 0 <= i < |elements| && Gives(elements[i], l)
  {
    if l in KipLinks(elements) {
      KipLinksSound(elements, l);
    }
    if i :| 0 <= i < |elements| && Gives(elements[i], l) {
      KipLinksComplete(elements, i);
    }
  }

  /** Filtering keeps render order and duplicates: the links of two stretches of the page are the links of each, in turn. */
  lemma {:induction false} KipLinksAppend(a: seq<Element>, b: seq<Element>)
    ensures KipLinks(a + b) == KipLinks(a) + KipLinks(b)
    decreases |b|
  {
    if b == [] {
      assert a + b == a;
    } else {
      var front := b[..|b| - 1];
      KipLinksAppend(a, front);
      assert (a + b)[..|a + b| - 1] == a + front;
      assert (a + b)[|a + b| - 1] == b[|b| - 1];
    }
  }

  /** The loop over `proposal_elements` that appends to `kip_links`. */
  method CollectKipLinks(elements: seq<Element>) returns (links: seq<Link>)
    ensures links == KipLinks(elements)
  {
    links := [];
    for i := 0 to |elements|
      invariant links == KipLinks(elements[..i])
    {
      var text := Strip(elements[i].text);
      if StartsWith(text, "KIP") {
        links := links + [Link(text, elements[i].href)];
      }
      assert elements[..i + 1][..i] == elements[..i];
    }
    assert elements[..|elements|] == elements;
  }

  /** The text mentions `vote` in any case. */
  predicate MentionsVote(text: string) {
    Contains(Lower(text), "vote")
  }

  /** The four characters of `text` at `i` spell `vote` in any mix of upper and lower case. */
  predicate VoteAt(text: string, i: nat) {
    i + 4 <= |text|
    && (text[i] == 'v' || text[i] == 'V') && (text[i + 1] == 'o' || text[i + 1] == 'O')
    && (text[i + 2] == 't' || text[i + 2] == 'T') && (text[i + 3] == 'e' || text[i + 3] == 'E')
  }

  /** `'vote' in text.lower()` holds exactly when `vote`, in any case, occurs in the text. */
  lemma MentionsVoteSpec(text: string)
    ensures MentionsVote(text) <==> exists i: nat :: VoteAt(text, i)
  {
    var low := Lower(text);
    ContainsSpec(low, "vote");
    forall i: nat ensures OccursAt(low, "vote", i) <==> VoteAt(text, i) {
      if i + 4 <= |text| {
        assert low[i..i + 4] == [low[i], low[i + 1], low[i + 2], low[i + 3]];
      }
    }
  }

  /** The element settles the vote count: it mentions a vote and holds a number. */
  predicate GivesVotes(text: string) {
    MentionsVote(text) && FirstNumber(text).Some?
  }

  /** `int(re.findall(r'\d+', text)[0])`. */
  function VotesIn(text: string): nat
    requires GivesVotes(text)
  {
    DecimalValue(FirstNumber(text).value)
  }

  /** The vote count of a proposal page: from the first element that gives one, else 0. */
  function VoteCount(texts: seq<string>): nat {
    if texts == [] then 0
    else if GivesVotes(texts[0]) then VotesIn(texts[0])
    else VoteCount(texts[1..])
  }

  /** The count is 0 when no element gives one, and otherwise that of the first element that does. */
  lemma {:induction false} VoteCountFirst(texts: seq<string>)
    ensures (forall i :: 0 <= i < |texts| ==> !GivesVotes(texts[i])) ==> VoteCount(texts) == 0
    ensures forall k :: 0 <= k < |texts| && GivesVotes(texts[k]) && (forall i :: 0 <= i < k ==> !GivesVotes(texts[i]))
              ==> VoteCount(texts) == VotesIn(texts[k])
  {
    if texts != [] {
      VoteCountFirst(texts[1..]);
      forall k | 0 < k < |texts| && GivesVotes(texts[k]) && (forall i :: 0 <= i < k ==> !GivesVotes(texts[i]))
        ensures VoteCount(texts) == VotesIn(texts[k])
      {
        assert texts[1..][k - 1] == texts[k];
        assert forall i :: 0 <= i < k - 1 ==> texts[1..][i] == texts[i + 1];
      }
    }
  }

  /** A page whose vote elements read "Results", "12 votes" and "Voted by 3 addresses" counts 12 votes. */
  lemma VoteCountExample()
    ensures VoteCount(["Results", "12 votes", "Voted by 3 addresses"]) == 12
  {
    assert FirstNumber("Results") == None by {
      FirstNumberSpec("Results");
    }
    var t := "12 votes";
    assert MentionsVote(t) by {
      assert Lower(t) == t;
      ContainsSpec(t, "vote");
      assert OccursAt(t, "vote", 3);
    }
    assert FirstNumber(t) == Some("12") by {
      assert FirstDigitFrom(t, 0) == Some(0);
      assert DigitRunAt(t, 2) == [];
      assert DigitRunAt(t, 1) == "2";
      assert DigitRunAt(t, 0) == "12";
    }
    DecimalTwelve();
  }

  /** The vote search: the first element mentioning a vote and holding a number gives the count. */
  method ExtractVotes(texts: seq<string>) returns (votes: nat)
    ensures votes == VoteCount(texts)
  {
    votes := 0;
    for i := 0 to |texts|
      invariant forall j :: 0 <= j < i ==> !GivesVotes(texts[j])
    {
      if MentionsVote(texts[i]) {
        var numbers := FirstNumber(texts[i]);
        if numbers.Some? {
          votes := DecimalValue(numbers.value);
          SkipToFirst(texts, i);
          return;
        }
      }
    }
    SkipToFirst(texts, |texts|);
  }

  /** Skipping elements that give no count does not change the count. */
  lemma {:induction false} SkipToFirst(texts: seq<string>, i: nat)
    requires i <= |texts|
    requires forall j :: 0 <= j < i ==> !GivesVotes(texts[j])
    ensures VoteCount(texts) == VoteCount(texts[i..])
  {
    if i > 0 {
      SkipToFirst(texts[1..], i - 1);
      assert texts[1..][i - 1..] == texts[i..];
    }
  }

  /** The primary selector's options: every non-empty stripped text, in order. */
  function NonEmptyTexts(texts: seq<string>): (options: seq<string>)
    ensures forall k :: 0 <= k < |options| ==> options[k] != ""
  {
    if texts == [] then []
    else
      var t := Strip(texts[|texts| - 1]);
      NonEmptyTexts(texts[..|texts| - 1]) + (if t != "" then [t] else [])
  }

  /** The primary options of two stretches of elements are those of each, in turn: render order is kept. */
  lemma {:induction false} NonEmptyTextsAppend(a: seq<string>, b: seq<string>)
    ensures NonEmptyTexts(a + b) == NonEmptyTexts(a) + NonEmptyTexts(b)
    decreases |b|
  {
    if b == [] {
      assert a + b == a;
    } else {
      var front := b[..|b| - 1];
      NonEmptyTextsAppend(a, front);
      assert (a + b)[..|a + b| - 1] == a + front;
      assert (a + b)[|a + b| - 1] == b[|b| - 1];
    }
  }

  /** A text is a primary option exactly when it is non-empty and some element's stripped text. */
  lemma {:induction false} NonEmptyTextsMembers(texts: seq<string>, t: string)
    ensures t in NonEmptyTexts(texts) <==> t != "" && exists i :: 0 <= i < |texts| && Strip(texts[i]) == t
  {
    if texts != [] {
      var front := texts[..|texts| - 1];
      NonEmptyTextsMembers(front, t);
      assert forall i :: 0 <= i < |front| ==> front[i] == texts[i];
      if t != "" && Strip(texts[|texts| - 1]) != t {
        if i :| 0 <= i < |texts| && Strip(texts[i]) == t {
          assert i < |front| && Strip(front[i]) == t;
        }
      }
    }
  }

  /** A stripped option text each backup selector accepts before the duplicate check. */
  predicate Acceptable(t: string) {
    t != "" && t != "Results"
  }

  /** A backup selector's loop: append each acceptable stripped text not already present. */
  function AddDistinct(options: seq<string>, texts: seq<string>): seq<string>
    decreases |texts|
  {
    if texts == [] then options
    else
      var t := Strip(texts[0]);
      AddDistinct(if Acceptable(t) && t !in options then options + [t] else options, texts[1..])
  }

  ghost predicate Distinct(s: seq<string>) {
    forall i, j :: 0 <= i < j < |s| ==> s[i] != s[j]
  }

  /**
   * A backup selector keeps what was there, adds only acceptable texts never
   * seen before, and leaves out no acceptable text it was shown.
   */
  lemma {:induction false} AddDistinctSpec(options: seq<string>, texts: seq<string>)
    ensures var r := AddDistinct(options, texts);
            |options| <= |r| && r[..|options|] == options
            && (forall k :: |options| <= k < |r| ==> Acceptable(r[k]) && r[k] !in options)
            && (Distinct(options) ==> Distinct(r))
            && (forall i :: 0 <= i < |texts| && Acceptable(Strip(texts[i])) ==> Strip(texts[i]) in r)
            && (forall x :: x in r ==> x in options || exists i :: 0 <= i < |texts| && x == Strip(texts[i]))
    decreases |texts|
  {
    if texts != [] {
      var t := Strip(texts[0]);
      var next := if Acceptable(t) && t !in options then options + [t] else options;
      AddDistinctSpec(next, texts[1..]);
      var r := AddDistinct(options, texts);
      assert r == AddDistinct(next, texts[1..]);
      assert r[..|next|] == next;
      assert r[..|options|] == next[..|options|] == options;
      forall k | |options| <= k < |r| ensures Acceptable(r[k]) && r[k] !in options {
        if k >= |next| {
          assert r[k] !in next;
        } else {
          assert r[k] == next[k] == t;
        }
      }
      forall i | 0 <= i < |texts| && Acceptable(Strip(texts[i])) ensures Strip(texts[i]) in r {
        if i == 0 {
          assert t in next;
          assert t in r[..|next|];
        } else {
          assert texts[1..][i - 1] == texts[i];
        }
      }
      forall x | x in r ensures x in options || exists i :: 0 <= i < |texts| && x == Strip(texts[i]) {
        if x !in next {
          var i :| 0 <= i < |texts[1..]| && x == Strip(texts[1..][i]);
          assert texts[i + 1] == texts[1..][i];
        } else if x !in options {
          assert x == Strip(texts[0]);
        }
      }
    }
  }

  /** A backup selector's loop over two stretches of elements is the loop over the first, continued over the second. */
  lemma {:induction false} AddDistinctAppend(options: seq<string>, a: seq<string>, b: seq<string>)
    ensures AddDistinct(options, a + b) == AddDistinct(AddDistinct(options, a), b)
    decreases |a|
  {
    if a == [] {
      assert a + b == b;
    } else {
      var t := Strip(a[0]);
      var next := if Acceptable(t) && t !in options then options + [t] else options;
      assert (a + b)[0] == a[0] && (a + b)[1..] == a[1..] + b;
      AddDistinctAppend(next, a[1..], b);
    }
  }

  /**
   * Render order: one more element appends its stripped text at the end when
   * it is acceptable and not yet present, and otherwise changes nothing.
   */
  lemma AddDistinctLast(options: seq<string>, texts: seq<string>, x: string)
    ensures var r := AddDistinct(options, texts);
            var t := Strip(x);
            AddDistinct(options, texts + [x]) == if Acceptable(t) && t !in r then r + [t] else r
  {
    AddDistinctAppend(options, texts, [x]);
    assert [x][1..] == [];
  }

  /**
   * The option fallback chain: the primary selector's non-empty texts; if
   * there are none, the first backup's distinct acceptable texts; if there
   * are none either, the second backup's.
   */
  function OptionChain(primary: seq<string>, backup1: seq<string>, backup2: seq<string>): seq<string> {
    var options := NonEmptyTexts(primary);
    if options != [] then options
    else
      var fromFirst := AddDistinct([], backup1);
      if fromFirst != [] then fromFirst else AddDistinct([], backup2)
  }

  /**
   * The options are never empty strings; those from a backup selector are
   * also never "Results", never repeated, include every acceptable text the
   * backup showed, and come from that backup alone.
   */
  lemma OptionChainSpec(primary: seq<string>, backup1: seq<string>, backup2: seq<string>)
    ensures var options := OptionChain(primary, backup1, backup2);
            (forall k :: 0 <= k < |options| ==> options[k] != "")
            && (NonEmptyTexts(primary) != [] ==> options == NonEmptyTexts(primary))
            && (NonEmptyTexts(primary) == [] ==>
                  Distinct(options) && (forall k :: 0 <= k < |options| ==> options[k] != "Results"))
            && (NonEmptyTexts(primary) == [] && AddDistinct([], backup1) != [] ==>
                  (forall i :: 0 <= i < |backup1| && Acceptable(Strip(backup1[i])) ==> Strip(backup1[i]) in options)
                  && (forall x :: x in options ==> exists i :: 0 <= i < |backup1| && x == Strip(backup1[i])))
            && (NonEmptyTexts(primary) == [] && AddDistinct([], backup1) == [] ==>
                  (forall i :: 0 <= i < |backup2| && Acceptable(Strip(backup2[i])) ==> Strip(backup2[i]) in options)
                  && (forall x :: x in options ==> exists i :: 0 <= i < |backup2| && x == Strip(backup2[i])))
  {
    AddDistinctSpec([], backup1);
    AddDistinctSpec([], backup2);
  }

  /** `options.append` over the primary selector's elements. */
  method PrimaryOptions(texts: seq<string>) returns (options: seq<string>)
    ensures options == NonEmptyTexts(texts)
  {
    options := [];
    for i := 0 to |texts|
      invariant options == NonEmptyTexts(texts[..i])
    {
      var t := Strip(texts[i]);
      if t != "" {
        options := options + [t];
      }
      assert texts[..i + 1][..i] == texts[..i];
    }
    assert texts[..|texts|] == texts;
  }

  /** `options.append` over a backup selector's elements, skipping "Results" and duplicates. */
  method BackupOptions(start: seq<string>, texts: seq<string>) returns (options: seq<string>)
    ensures options == AddDistinct(start, texts)
  {
    options := start;
    for i := 0 to |texts|
      invariant AddDistinct(options, texts[i..]) == AddDistinct(start, texts)
    {
      var t := Strip(texts[i]);
      if t != "" && t != "Results" && t !in options {
        options := options + [t];
      }
      assert texts[i..][1..] == texts[i + 1..];
    }
  }

  /**
   * The option extraction of one proposal page; `selectorsUsed` says how
   * many of the three selectors were queried.
   */
  method ExtractOptions(primary: seq<string>, backup1: seq<string>, backup2: seq<string>)
    returns (options: seq<string>, selectorsUsed: nat)
    ensures options == OptionChain(primary, backup1, backup2)
    ensures selectorsUsed == (if NonEmptyTexts(primary) != [] then 1
                              else if AddDistinct([], backup1) != [] then 2 else 3)
  {
    options := PrimaryOptions(primary);
    selectorsUsed := 1;
    if options == [] {
      options := BackupOptions(options, backup1);
      selectorsUsed := 2;
      if options == [] {
        options := BackupOptions(options, backup2);
        selectorsUsed := 3;
      }
    }
  }

  /**
   * What visiting one proposal page yields: an exception (the content never
   * rendered, or another failure), or the content text and the texts the
   * vote and option selectors return.
   */
  datatype Visit =
    | Failed
    | Loaded(content: string, voteTexts: seq<string>, primary: seq<string>, backup1: seq<string>, backup2: seq<string>)

  /** One row of `kip_proposals_detailed.csv`; `options` is the list `json.dumps` serialises. */
  datatype Proposal = Proposal(text: string, href: string, content: string, votes: nat, options: seq<string>)

  /** The record for one candidate: the extracted details, or the placeholder when the visit failed. */
  function Detail(link: Link, visit: Visit): (p: Proposal)
    ensures p.text == link.text && p.href == link.href
    ensures visit.Failed? ==> p.content == "" && p.votes == 0 && p.options == []
    ensures visit.Loaded? ==> p.content == visit.content && p.votes == VoteCount(visit.voteTexts)
                              && p.options == OptionChain(visit.primary, visit.backup1, visit.backup2)
  {
    match visit
    case Failed => Proposal(link.text, link.href, "", 0, [])
    case Loaded(content, voteTexts, primary, backup1, backup2) =>
      Proposal(link.text, link.href, content, VoteCount(voteTexts), OptionChain(primary, backup1, backup2))
  }

  /**
   * The loop over `kip_links`: exactly one record per candidate, in the same
   * order, a failed visit leaving a placeholder rather than ending the run.
   */
  method VisitProposals(links: seq<Link>, visit: Link -> Visit) returns (detailed: seq<Proposal>)
    ensures |detailed| == |links|
    ensures forall i :: 0 <= i < |links| ==> detailed[i] == Detail(links[i], visit(links[i]))
  {
    detailed := [];
    for i := 0 to |links|
      invariant |detailed| == i
      invariant forall j :: 0 <= j < i ==> detailed[j] == Detail(links[j], visit(links[j]))
    {
      var proposal := links[i];
      var page := visit(proposal);
      match page
      case Failed =>
        detailed := detailed + [Proposal(proposal.text, proposal.href, "", 0, [])];
      case Loaded(content, voteTexts, primary, backup1, backup2) =>
        var votes := ExtractVotes(voteTexts);
        var options, _ := ExtractOptions(primary, backup1, backup2);
        detailed := detailed + [Proposal(proposal.text, proposal.href, content, votes, options)];
    }
  }

  /** `re.search(r'KIP-(\d+)', s)` matches at position `i`. */
  predicate KipMatchAt(s: string, i: nat) {
    i + 4 < |s| && s[i..i + 4] == "KIP-" && IsDigit(s[i + 4])
  }

  /** The leftmost match position at or after `from`. */
  function FirstKipMatch(s: string, from: nat): (r: Option<nat>)
    ensures r.Some? ==> from <= r.value && KipMatchAt(s, r.value)
    decreases |s| - from
  {
    if from + 4 >= |s| then None
    else if KipMatchAt(s, from) then Some(from)
    else FirstKipMatch(s, from + 1)
  }

  /** `None` exactly when nothing matches from `from` on; otherwise nothing matches before the position found. */
  lemma {:induction false} FirstKipMatchSpec(s: string, from: nat)
    ensures FirstKipMatch(s, from).None? <==> forall i: nat :: from <= i ==> !KipMatchAt(s, i)
    ensures FirstKipMatch(s, from).Some? ==> forall i: nat :: from <= i < FirstKipMatch(s, from).value ==> !KipMatchAt(s, i)
    decreases |s| - from
  {
    if from + 4 < |s| && !KipMatchAt(s, from) {
      FirstKipMatchSpec(s, from + 1);
    }
  }

  /**
   * `extract_kip_number`: the number after the leftmost `KIP-` followed by
   * digits, or `None`, standing for the `float('inf')` that sorts after every
   * number.
   */
  function ExtractKipNumber(text: string): Option<nat> {
    match FirstKipMatch(text, 0)
    case None => None
    case Some(i) => Some(DecimalValue(DigitRunAt(text, i + 4)))
  }

  /** No number exactly when `KIP-` followed by a digit occurs nowhere; otherwise the number is read at the leftmost match. */
  lemma ExtractKipNumberSpec(text: string)
    ensures ExtractKipNumber(text).None? <==> forall i: nat :: !KipMatchAt(text, i)
    ensures ExtractKipNumber(text).Some? ==>
              exists i: nat :: KipMatchAt(text, i) && (forall j: nat :: j < i ==> !KipMatchAt(text, j))
                               && ExtractKipNumber(text).value == DecimalValue(DigitRunAt(text, i + 4))
  {
    FirstKipMatchSpec(text, 0);
  }

  lemma DecimalTwelve()
    ensures DecimalValue("12") == 12
  {
    assert "12"[..1] == "1" && "1"[..0] == "";
    assert DecimalValue("1") == 1;
  }

  /** The digit run after `KIP-` in "KIP-12: Treasury" stops at the colon. */
  lemma TwelveRun()
    ensures DigitRunAt("KIP-12: Treasury", 4) == "12"
  {
    var t := "KIP-12: Treasury";
    assert t[4] == '1' && t[5] == '2' && t[6] == ':';
    assert DigitRunAt(t, 6) == [];
    assert DigitRunAt(t, 5) == [t[5]] + DigitRunAt(t, 6);
  }

  /** Reading `12` after a leading `KIP-`: the regular expression takes the whole digit run. */
  lemma KipNumberAtStart()
    ensures ExtractKipNumber("KIP-12: Treasury") == Some(12)
  {
    var t := "KIP-12: Treasury";
    assert t[..4] == "KIP-" && IsDigit(t[4]);
    assert FirstKipMatch(t, 0) == Some(0);
    TwelveRun();
    DecimalTwelve();
  }

  /** The match need not be at the start of the text. */
  lemma KipNumberInside()
    ensures ExtractKipNumber("On KIP-3") == Some(3)
  {
    var u := "On KIP-3";
    FirstKipMatchSpec(u, 0);
    assert KipMatchAt(u, 3);
    assert forall i: nat :: i < 3 ==> !KipMatchAt(u, i) by {
      assert u[0] != 'K' && u[1] != 'K' && u[2] != 'K';
    }
    assert FirstKipMatch(u, 0) == Some(3);
    assert DigitRunAt(u, 7) == "3";
    assert DecimalValue("3") == 3;
  }

  /** A `KIP-` without digits gives the sentinel. */
  lemma KipNumberMissing()
    ensures ExtractKipNumber("KIP-x") == None
  {
    assert FirstKipMatch("KIP-x", 1) == None;
  }

  /** The sort key: a number, or the sentinel `None` that is larger than every number. */
  function Key(p: Proposal): Option<nat> {
    ExtractKipNumber(p.text)
  }

  predicate KeyLe(a: Option<nat>, b: Option<nat>) {
    b.None? || (a.Some? && a.value <= b.value)
  }

  /** Non-decreasing by `key`, sentinel keys last. */
  ghost predicate SortedBy(s: seq<Proposal>, key: Proposal -> Option<nat>) {
    forall i, j :: 0 <= i < j < |s| ==> KeyLe(key(s[i]), key(s[j]))
  }

  /** Place `p` before the first record whose key is not smaller. */
  function InsertBy(p: Proposal, s: seq<Proposal>, key: Proposal -> Option<nat>): seq<Proposal> {
    if s == [] then [p]
    else if KeyLe(key(p), key(s[0])) then [p] + s
    else [s[0]] + InsertBy(p, s[1..], key)
  }

  lemma {:induction false} InsertPermutes(p: Proposal, s: seq<Proposal>, key: Proposal -> Option<nat>)
    ensures multiset(InsertBy(p, s, key)) == multiset(s) + multiset{p}
  {
    if s != [] && !KeyLe(key(p), key(s[0])) {
      InsertPermutes(p, s[1..], key);
      assert s == [s[0]] + s[1..];
    }
  }

  /** A record no larger than every record of a sorted sequence can go in front of it. */
  lemma SortedCons(x: Proposal, s: seq<Proposal>, key: Proposal -> Option<nat>)
    requires SortedBy(s, key) && forall k :: 0 <= k < |s| ==> KeyLe(key(x), key(s[k]))
    ensures SortedBy([x] + s, key)
  {
    var r := [x] + s;
    forall i, j | 0 <= i < j < |r| ensures KeyLe(key(r[i]), key(r[j])) {
      assert r[j] == s[j - 1];
      if i > 0 {
        assert r[i] == s[i - 1];
      }
    }
  }

  /** Inserting a record keeps every key at least `lo` when the record's is. */
  lemma {:induction false} InsertKeepsBound(p: Proposal, s: seq<Proposal>, key: Proposal -> Option<nat>, lo: Option<nat>)
    requires KeyLe(lo, key(p)) && forall k :: 0 <= k < |s| ==> KeyLe(lo, key(s[k]))
    ensures forall k :: 0 <= k < |InsertBy(p, s, key)| ==> KeyLe(lo, key(InsertBy(p, s, key)[k]))
  {
    if s != [] && !KeyLe(key(p), key(s[0])) {
      InsertKeepsBound(p, s[1..], key, lo);
      assert InsertBy(p, s, key) == [s[0]] + InsertBy(p, s[1..], key);
    }
  }

  lemma {:induction false} InsertSorted(p: Proposal, s: seq<Proposal>, key: Proposal -> Option<nat>)
    requires SortedBy(s, key)
    ensures SortedBy(InsertBy(p, s, key), key)
  {
    if s == [] {
    } else if KeyLe(key(p), key(s[0])) {
      SortedCons(p, s, key);
    } else {
      var tail := s[1..];
      assert forall k :: 0 <= k < |tail| ==> tail[k] == s[k + 1];
      InsertSorted(p, tail, key);
      InsertKeepsBound(p, tail, key, key(s[0]));
      SortedCons(s[0], InsertBy(p, tail, key), key);
    }
  }

  /** Insertion sort by `key`. */
  function SortBy(s: seq<Proposal>, key: Proposal -> Option<nat>): seq<Proposal> {
    if s == [] then [] else InsertBy(s[0], SortBy(s[1..], key), key)
  }

  /** The sort returns a permutation of its input, ordered by the key. */
  lemma {:induction false} SortBySpec(s: seq<Proposal>, key: Proposal -> Option<nat>)
    ensures multiset(SortBy(s, key)) == multiset(s)
    ensures SortedBy(SortBy(s, key), key)
  {
    if s != [] {
      SortBySpec(s[1..], key);
      InsertPermutes(s[0], SortBy(s[1..], key), key);
      InsertSorted(s[0], SortBy(s[1..], key), key);
      assert s == [s[0]] + s[1..];
    }
  }

  /**
   * `df.sort_values('kip_num')`, modelled as an insertion sort on the KIP
   * number. Only two facts about its result are claimed: it is a permutation
   * of the records, and it is non-decreasing by KIP number with the sentinel
   * records last. The order among equal keys is not claimed.
   */
  function SortByKip(s: seq<Proposal>): seq<Proposal> {
    SortBy(s, Key)
  }

  ghost predicate SortedByKip(s: seq<Proposal>) {
    SortedBy(s, Key)
  }

  lemma SortByKipSpec(s: seq<Proposal>)
    ensures multiset(SortByKip(s)) == multiset(s)
    ensures SortedByKip(SortByKip(s))
  {
    SortBySpec(s, Key);
  }

  /** In sorted output no record with a number follows one without. */
  lemma SentinelsLast(s: seq<Proposal>)
    requires SortedByKip(s)
    ensures forall i, j :: 0 <= i < j < |s| && Key(s[i]).None? ==> Key(s[j]).None?
  {
  }

  /** How a run of the crawler ends. */
  datatype CrawlOutcome =
    | ListingTimeout           // no proposal link rendered: `wait.until` raises
    | NoProposals              // the DataFrame is empty: nothing written
    | Saved(rows: seq<Proposal>)

  /**
   * The whole crawl: wait for the listing, scroll, collect the KIP links of
   * the page as it then is, visit each, sort by KIP number and save unless
   * there is nothing to save.
   */
  method CrawlProposals(initial: Snapshot, later: seq<Snapshot>, visit: Link -> Visit) returns (outcome: CrawlOutcome)
    ensures initial.links == [] ==> outcome == ListingTimeout
    ensures initial.links != [] ==>
              var links := KipLinks(PageAt(initial, later, ScrollStop(initial, later)).links);
              (links == [] <==> outcome == NoProposals)
              && (links != [] ==>
                    outcome.Saved? && |outcome.rows| == |links| && SortedByKip(outcome.rows)
                    && multiset(outcome.rows) == multiset(seq(|links|, i requires 0 <= i < |links| => Detail(links[i], visit(links[i])))))
  {
    if initial.links == [] {
      return ListingTimeout;
    }
    var _, _, page := ScrollForKip1(initial, later);
    var kipLinks := CollectKipLinks(page.links);
    var detailed := VisitProposals(kipLinks, visit);
    if detailed == [] {
      return NoProposals;
    }
    var sorted := SortByKip(detailed);
    SortByKipSpec(detailed);
    assert detailed == seq(|kipLinks|, i requires 0 <= i < |kipLinks| => Detail(kipLinks[i], visit(kipLinks[i])));
    assert |sorted| == |multiset(sorted)| == |multiset(detailed)| == |detailed|;
    outcome := Saved(sorted);
  }
}
