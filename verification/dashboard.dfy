/** The signed-in dashboard: the sidebar category filters the cards, the
    survivors are dealt into the responsive columns, and the header names the
    category. */
module Dashboard {
  import opened Sequences
  import opened Content
  import opened Layout

  /** The category value that shows every card. */
  const AllCategory := "all"

  /** A card survives the filter when the category is "all" or is the card's
      type. */
  predicate InCategory(card: Card, category: string) {
    category == AllCategory || TypeName(card.kind) == category
  }

  /** The filter of `distributeCards`: exactly the cards in the category, in
      their original order and with their original multiplicity. */
  function FilterByCategory(cards: seq<Card>, category: string): (kept: seq<Card>)
    ensures IsSubsequence(kept, cards)
    ensures forall card :: multiset(kept)[card]
                           == (if InCategory(card, category) then multiset(cards)[card] else 0)
  {
    if cards == [] then []
    else
      var rest := FilterByCategory(cards[1..], category);
      assert cards == [cards[0]] + cards[1..];
      if InCategory(cards[0], category) then
        assert ([cards[0]] + rest)[1..] == rest;
        [cards[0]] + rest
      else rest
  }

  /** Category "all" keeps the list as it is. */
  lemma {:induction false} FilterAllKeepsEverything(cards: seq<Card>)
    ensures FilterByCategory(cards, AllCategory) == cards
  {
    if cards != [] {
      FilterAllKeepsEverything(cards[1..]);
    }
  }

  /** The sidebar's "tags" entry names no content type, so it keeps nothing. */
  lemma {:induction false} FilterTagsKeepsNothing(cards: seq<Card>)
    ensures FilterByCategory(cards, "tags") == []
  {
    if cards != [] {
      FilterTagsKeepsNothing(cards[1..]);
      assert !InCategory(cards[0], "tags");
    }
  }

  /** Filtering twice by the same category changes nothing further. */
  lemma {:induction false} FilterIdempotent(cards: seq<Card>, category: string)
    ensures FilterByCategory(FilterByCategory(cards, category), category)
         == FilterByCategory(cards, category)
  {
    if cards != [] {
      FilterIdempotent(cards[1..], category);
    }
  }

  /** The dashboard's `distributeCards`: filter by category, then deal the
      survivors round-robin into `columns` columns. */
  method DashboardColumns(cards: seq<Card>, category: string, columns: nat)
    returns (grid: seq<seq<Card>>)
    requires columns >= 1
    ensures IsRoundRobin(grid, FilterByCategory(cards, category), columns)
    ensures ColumnsInOrder(grid, cards)
    ensures forall card :: multiset(Flatten(grid))[card]
                           == (if InCategory(card, category) then multiset(cards)[card] else 0)
  {
    var filtered := FilterByCategory(cards, category);
    grid := DistributeCards(filtered, columns);
    DealIsRoundRobin(filtered, columns);
    DashboardContents(cards, category, columns);
    forall k | 0 <= k < columns ensures IsSubsequence(grid[k], cards) {
      SubsequenceTrans(grid[k], filtered, cards);
    }
  }

  /** The dealt grid holds exactly the cards of the category, each as often
      as in the input. */
  lemma DashboardContents(cards: seq<Card>, category: string, columns: nat)
    requires columns >= 1
    ensures forall card :: multiset(Flatten(Deal(FilterByCategory(cards, category), columns)))[card]
                           == (if InCategory(card, category) then multiset(cards)[card] else 0)
  {
    DealPartition(FilterByCategory(cards, category), columns);
  }

  /** With the "tags" category every column is empty. */
  lemma TagsGridEmpty(cards: seq<Card>, columns: nat)
    requires columns >= 1
    ensures forall k :: 0 <= k < columns ==> Deal(FilterByCategory(cards, "tags"), columns)[k] == []
  {
    FilterTagsKeepsNothing(cards);
  }

  // ---------------------------------------------------------------------------
  // Header

  /** `toUpperCase` on a single character, for the ASCII letters. */
  function UpperAscii(ch: char): char {
    if 'a' <= ch <= 'z' then (ch as int - 32) as char else ch
  }

  /** `category.charAt(0).toUpperCase() + category.slice(1)` */
  function Capitalize(s: string): (r: string)
    ensures |r| == |s|
    ensures s != [] ==> r[0] == UpperAscii(s[0]) && r[1..] == s[1..]
  {
    if s == [] then [] else [UpperAscii(s[0])] + s[1..]
  }

  /** The dashboard heading for a category. */
  function HeaderTitle(category: string): string {
    Capitalize(category) + " Content"
  }

  /** Capitalizing twice is capitalizing once, and only the first letter of
      a lower-case category changes. */
  lemma CapitalizeIdempotent(s: string)
    ensures Capitalize(Capitalize(s)) == Capitalize(s)
    ensures s != [] && 'a' <= s[0] <= 'z' ==> Capitalize(s)[0] != s[0]
  {
  }

  /** The heading of a lower-case category is the category with its first
      letter raised, followed by " Content"; "all" reads "All Content". */
  lemma HeaderOfCategory(category: string)
    requires category != [] && 'a' <= category[0] <= 'z'
    ensures |HeaderTitle(category)| == |category| + 8
    ensures HeaderTitle(category)[0] == (category[0] as int - 32) as char
    ensures HeaderTitle(category)[1..|category|] == category[1..]
    ensures HeaderTitle(category)[|category|..] == " Content"
  {
  }

  lemma AllHeader()
    ensures HeaderTitle(AllCategory) == "All Content"
  {
    assert Capitalize(AllCategory) == "All";
  }
}
