/**
 * The emoji picker's list logic: the "recently used" list (most recent first, at most 16, no
 * repeats), the favourites toggle, the search / category filter and the 12 recent emojis shown.
 * Emojis are compared by equality only, so they are plain strings here.
 */
module EmojiPicker {
  import opened Wrappers
  import opened JsText

  /** How many recently used emojis are remembered. */
  const RecentLimit := 16
  /** How many of them the "recently used" panel shows. */
  const RecentShown := 12

  // ---- the recent list ----

  /** The recent list after a click on `emoji`: it goes to the front, an older copy is dropped, 16 are kept. */
  function NextRecent(recent: seq<string>, emoji: string): (r: seq<string>)
    ensures |r| == if |Remove(recent, emoji)| < RecentLimit then |Remove(recent, emoji)| + 1 else RecentLimit
  {
    Take([emoji] + Remove(recent, emoji), RecentLimit)
  }

  /**
   * The clicked emoji comes first and only once, at most 16 entries remain, and the others are the
   * older entries other than the emoji, in their previous order (a prefix of the filtered old list).
   */
  lemma NextRecentShape(recent: seq<string>, emoji: string)
    ensures var r := NextRecent(recent, emoji);
      && 1 <= |r| <= RecentLimit
      && r[0] == emoji
      && r[1..] <= Remove(recent, emoji)
      && multiset(r)[emoji] == 1
  {
    var rest := Remove(recent, emoji);
    var r := NextRecent(recent, emoji);
    var kept := r[1..];
    assert r == [emoji] + kept;
    assert kept <= rest;
    assert emoji !in kept by {
      forall i | 0 <= i < |kept| ensures kept[i] != emoji {
        assert kept[i] == rest[i];
      }
    }
    assert multiset(r) == multiset{emoji} + multiset(kept);
  }

  /** Clicking an emoji of the list moves it to the front; the entries around it keep their order. */
  lemma NextRecentKeepsOrder(before: seq<string>, emoji: string, after: seq<string>)
    requires emoji !in before && emoji !in after
    ensures NextRecent(before + [emoji] + after, emoji) == Take([emoji] + before + after, RecentLimit)
  {
    RemoveOnly(before, after, emoji);
    assert [emoji] + (before + after) == [emoji] + before + after;
  }

  /** Every entry of the new recent list is the clicked emoji or was in the old list. */
  lemma NextRecentFromOld(recent: seq<string>, emoji: string)
    ensures var r := NextRecent(recent, emoji);
      forall i :: 0 <= i < |r| ==> r[i] == emoji || r[i] in recent
  {
    var rest := Remove(recent, emoji);
    var r := NextRecent(recent, emoji);
    RemoveMembers(recent, emoji);
    forall i | 0 <= i < |r| ensures r[i] == emoji || r[i] in recent {
      if i > 0 {
        assert r[i] == rest[i - 1] && rest[i - 1] in rest;
      }
    }
  }

  /** A recent list without repeats stays without repeats after a click. */
  lemma NextRecentNoDuplicates(recent: seq<string>, emoji: string)
    requires NoDuplicates(recent)
    ensures NoDuplicates(NextRecent(recent, emoji))
  {
    var rest := Remove(recent, emoji);
    RemoveNoDuplicates(recent, emoji);
    var full := [emoji] + rest;
    forall i, j | 0 <= i < j < |full| ensures full[i] != full[j] {
      assert full[j] == rest[j - 1];
      if i > 0 {
        assert full[i] == rest[i - 1];
      }
    }
    var r := NextRecent(recent, emoji);
    forall i, j | 0 <= i < j < |r| ensures r[i] != r[j] {
      assert r[i] == full[i] && r[j] == full[j];
    }
  }

  /** Clicking the emoji that is already first changes nothing when the list has no repeats. */
  lemma {:induction false} NextRecentOfFirst(recent: seq<string>, emoji: string)
    requires NoDuplicates(recent) && |recent| <= RecentLimit
    requires recent != [] && recent[0] == emoji
    ensures NextRecent(recent, emoji) == recent
  {
    var tail := recent[1..];
    assert emoji !in tail by {
      forall j | 0 <= j < |tail| ensures tail[j] != emoji {
        assert tail[j] == recent[j + 1];
      }
    }
    RemoveCons(emoji, tail, emoji);
    assert recent == [emoji] + tail;
  }

  /** The "recently used" panel: hidden while searching or when empty, otherwise the first 12. */
  function ShownRecent(recent: seq<string>, searchTerm: string): (r: seq<string>)
    ensures |r| <= RecentShown && r <= recent
    ensures r != [] <==> recent != [] && searchTerm == []
    ensures searchTerm == [] ==> r == recent[..if |recent| <= RecentShown then |recent| else RecentShown]
  {
    if recent != [] && searchTerm == [] then Take(recent, RecentShown) else []
  }

  // ---- favourites ----

  /** `toggleFavorite`: a present emoji is filtered out, an absent one is appended. */
  function NextFavorites(favorites: seq<string>, emoji: string): (r: seq<string>)
    ensures emoji in favorites ==> emoji !in r && multiset(r) == multiset(favorites)[emoji := 0]
    ensures emoji !in favorites ==> r == favorites + [emoji]
  {
    if emoji in favorites then
      RemoveMultiset(favorites, emoji);
      Remove(favorites, emoji)
    else favorites + [emoji]
  }

  /** Toggling an absent emoji twice gives the favourites back. */
  lemma ToggleAbsentTwice(favorites: seq<string>, emoji: string)
    requires emoji !in favorites
    ensures NextFavorites(NextFavorites(favorites, emoji), emoji) == favorites
  {
    var once := favorites + [emoji];
    assert emoji in once by { assert once[|favorites|] == emoji; }
    RemoveAppended(favorites, emoji);
  }

  /** Toggling a present emoji twice moves it to the end, once, behind the others in their order. */
  lemma TogglePresentTwice(favorites: seq<string>, emoji: string)
    requires emoji in favorites
    ensures NextFavorites(NextFavorites(favorites, emoji), emoji) == Remove(favorites, emoji) + [emoji]
  {
  }

  // ---- search and categories ----

  /** One emoji of the emoji table: its character (`char` in the table) and its description. */
  datatype Emoji = Emoji(glyph: string, description: string)

  /** A category of the emoji table. */
  datatype Category = Category(name: string, emojis: seq<Emoji>)

  /** `String.prototype.toLowerCase`, which is not modelled here and is taken as given. */
  type LowerCase = string -> string

  /** `data.flatMap(category => category.emojis)`. */
  function AllEmojis(data: seq<Category>): seq<Emoji>
    decreases |data|
  {
    if data == [] then [] else data[0].emojis + AllEmojis(data[1..])
  }

  /** The search test: the lower-cased description holds the lower-cased term, or the character holds the term. */
  predicate MatchesSearch(e: Emoji, term: string, lower: LowerCase) {
    Contains(lower(e.description), lower(term)) || Contains(e.glyph, term)
  }

  /** `emojis.filter(matches)`. */
  function FilterSearch(emojis: seq<Emoji>, term: string, lower: LowerCase): (r: seq<Emoji>)
    ensures |r| <= |emojis|
    decreases |emojis|
  {
    if emojis == [] then []
    else if MatchesSearch(emojis[0], term, lower) then [emojis[0]] + FilterSearch(emojis[1..], term, lower)
    else FilterSearch(emojis[1..], term, lower)
  }

  /** The filter keeps exactly the matching emojis: each result matches, and each matching emoji is kept. */
  lemma {:induction false} FilterSearchExact(emojis: seq<Emoji>, term: string, lower: LowerCase)
    ensures forall i :: 0 <= i < |FilterSearch(emojis, term, lower)| ==>
      MatchesSearch(FilterSearch(emojis, term, lower)[i], term, lower) && FilterSearch(emojis, term, lower)[i] in emojis
    ensures forall i :: 0 <= i < |emojis| && MatchesSearch(emojis[i], term, lower) ==>
      emojis[i] in FilterSearch(emojis, term, lower)
    decreases |emojis|
  {
    if emojis != [] {
      var tail := emojis[1..];
      FilterSearchExact(tail, term, lower);
      var rt := FilterSearch(tail, term, lower);
      var r := FilterSearch(emojis, term, lower);
      assert forall i :: 0 <= i < |rt| ==> MatchesSearch(rt[i], term, lower) && rt[i] in tail;
      assert forall x :: x in tail ==> x in emojis;
      forall i | 0 <= i < |r| ensures MatchesSearch(r[i], term, lower) && r[i] in emojis {
        if MatchesSearch(emojis[0], term, lower) {
          if i > 0 {
            assert r[i] == rt[i - 1];
          }
        } else {
          assert r[i] == rt[i];
        }
      }
      forall i | 0 <= i < |emojis| && MatchesSearch(emojis[i], term, lower) ensures emojis[i] in r {
        if i > 0 {
          assert emojis[i] == tail[i - 1];
        }
      }
    }
  }

  /** `data.find(category => category.name === name)`: the first category with that name. */
  function FindCategory(data: seq<Category>, name: string): (r: Option<nat>)
    ensures r.Some? ==> r.value < |data| && data[r.value].name == name
    ensures forall k :: 0 <= k < |data| && (r.None? || k < r.value) ==> data[k].name != name
    decreases |data|
  {
    if data == [] then None
    else if data[0].name == name then Some(0)
    else
      match FindCategory(data[1..], name)
      case None => None
      case Some(k) => Some(k + 1)
  }

  /**
   * `filteredEmojis`: with a search term, the matching emojis of all categories; without one, the
   * selected category's emojis, or none when no category has that name.
   */
  function FilteredEmojis(data: seq<Category>, selected: string, searchTerm: string, lower: LowerCase): (r: seq<Emoji>)
    ensures searchTerm != [] ==> r == FilterSearch(AllEmojis(data), searchTerm, lower)
    ensures searchTerm == [] ==>
      match FindCategory(data, selected)
      case None => r == []
      case Some(k) => r == data[k].emojis
  {
    if searchTerm != [] then FilterSearch(AllEmojis(data), searchTerm, lower)
    else
      match FindCategory(data, selected)
      case None => []
      case Some(k) => data[k].emojis
  }

  /** A search result is exactly an emoji of the table that matches the term. */
  lemma SearchResults(data: seq<Category>, selected: string, searchTerm: string, lower: LowerCase)
    requires searchTerm != []
    ensures var r := FilteredEmojis(data, selected, searchTerm, lower);
      var all := AllEmojis(data);
      && (forall i :: 0 <= i < |r| ==> MatchesSearch(r[i], searchTerm, lower) && r[i] in all)
      && (forall i :: 0 <= i < |all| && MatchesSearch(all[i], searchTerm, lower) ==> all[i] in r)
  {
    FilterSearchExact(AllEmojis(data), searchTerm, lower);
  }

  // ---- the component ----

  /** The picker's state: the `useState` fields of the component. */
  class EmojiPickerState {
    var selectedCategory: string
    var searchTerm: string
    var recent: seq<string>
    var favorites: seq<string>
    var copied: Option<string>

    /** The recent list keeps its bound and has no repeats. */
    predicate Valid()
      reads this
    {
      |recent| <= RecentLimit && NoDuplicates(recent)
    }

    /** The first category is selected, nothing is searched, remembered or copied. */
    constructor (data: seq<Category>)
      requires data != []
      ensures selectedCategory == data[0].name && searchTerm == []
      ensures recent == [] && favorites == [] && copied == None
      ensures Valid()
    {
      selectedCategory, searchTerm := data[0].name, [];
      recent, favorites, copied := [], [], None;
    }

    /** `handleEmojiClick`: the emoji is shown as copied and moved to the front of the recent list. */
    method HandleEmojiClick(emoji: string)
      requires Valid()
      modifies this
      ensures Valid()
      ensures recent == NextRecent(old(recent), emoji) && copied == Some(emoji)
      ensures favorites == old(favorites) && selectedCategory == old(selectedCategory)
      ensures searchTerm == old(searchTerm)
    {
      NextRecentShape(recent, emoji);
      NextRecentNoDuplicates(recent, emoji);
      copied := Some(emoji);
      recent := NextRecent(recent, emoji);
    }

    /** `toggleFavorite`. */
    method ToggleFavorite(emoji: string)
      modifies this
      ensures favorites == NextFavorites(old(favorites), emoji)
      ensures recent == old(recent) && copied == old(copied)
      ensures selectedCategory == old(selectedCategory) && searchTerm == old(searchTerm)
    {
      favorites := NextFavorites(favorites, emoji);
    }

    /** A category button: it selects the category and clears the search. */
    method SelectCategory(name: string)
      modifies this
      ensures selectedCategory == name && searchTerm == []
      ensures recent == old(recent) && favorites == old(favorites) && copied == old(copied)
    {
      selectedCategory, searchTerm := name, [];
    }
  }
}
