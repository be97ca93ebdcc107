/**
 * The record-shaping rules of the Zotero endpoints in zotero/main.py, over
 * records that are already decoded from JSON or XML: finding a collection's
 * key by name, listing the items of a collection, and turning PubMed
 * authors and article identifiers into the fields of a new Zotero item.
 *
 * A JSON field that may be absent is an `Option`.
 */
module ZoteroItems {

  import opened Wrappers
  import opened Text

  // ---------------------------------------------------------------------
  // Collection lookup
  // ---------------------------------------------------------------------

  /** A collection as the collections endpoint lists it (`data.name`, `data.key`). */
  datatype Collection = Collection(name: string, key: string)

  /** Index of the first collection, from `i` on, called `name`. */
  function FirstNamed(collections: seq<Collection>, name: string, i: nat): (r: Option<nat>)
    requires i <= |collections|
    ensures r.Some? ==> i <= r.value < |collections| && collections[r.value].name == name
    ensures r.Some? ==> forall j :: i <= j < r.value ==> collections[j].name != name
    ensures r.None? ==> forall j :: i <= j < |collections| ==> collections[j].name != name
    decreases |collections| - i
  {
    if i == |collections| then None
    else if collections[i].name == name then Some(i)
    else FirstNamed(collections, name, i + 1)
  }

  /** The key of a collection, or the error the endpoint returns instead. */
  datatype KeyResult = Key(key: string) | Error(message: string)

  function NotFoundMessage(name: string): string {
    "Collection '" + name + "' not found."
  }

  /**
   * `next(c.key for c in collections if c.name == name)`, then the falsy
   * test: no such collection, or one whose key is empty, is an error.
   */
  function CollectionKey(collections: seq<Collection>, name: string): (r: KeyResult)
    ensures r.Key? ==> r.key != ""
    ensures r.Error? ==> r.message == NotFoundMessage(name)
  {
    match FirstNamed(collections, name, 0)
    case None => Error(NotFoundMessage(name))
    case Some(i) => if collections[i].key == "" then Error(NotFoundMessage(name)) else Key(collections[i].key)
  }

  /**
   * The key found is that of the first collection with the name; it is an
   * error exactly when no collection has the name or the first one has an
   * empty key.
   */
  lemma CollectionKeyMeaning(collections: seq<Collection>, name: string)
    ensures CollectionKey(collections, name).Key? ==> exists i ::
              && 0 <= i < |collections| && collections[i].name == name
              && (forall j :: 0 <= j < i ==> collections[j].name != name)
              && collections[i].key == CollectionKey(collections, name).key
    ensures CollectionKey(collections, name).Error? <==>
              || (forall j :: 0 <= j < |collections| ==> collections[j].name != name)
              || (exists i ::
                    && 0 <= i < |collections| && collections[i].name == name
                    && (forall j :: 0 <= j < i ==> collections[j].name != name)
                    && collections[i].key == "")
  {
    match FirstNamed(collections, name, 0)
    case None =>
    case Some(i) =>
      forall i' | 0 <= i' < |collections| && collections[i'].name == name
                  && (forall j :: 0 <= j < i' ==> collections[j].name != name)
        ensures i' == i
      {
      }
  }

  // ---------------------------------------------------------------------
  // Item listing
  // ---------------------------------------------------------------------

  /** A creator of an item; only its last name is used. */
  datatype Creator = Creator(lastName: Option<string>)

  /** The `data` object of an item, with the fields the listing reads. */
  datatype ItemData = ItemData(
    itemType: Option<string>,
    title: Option<string>,
    key: Option<string>,
    creators: Option<seq<Creator>>,
    date: Option<string>,
    url: Option<string>)

  /** One row of the listing. */
  datatype ItemSummary = ItemSummary(
    title: Option<string>,
    key: Option<string>,
    authors: string,
    publicationYear: string,
    link: string)

  /** Item types that are not listed: they are parts of another item. */
  const HiddenTypes: seq<string> := ["attachment", "note", "link"]

  /** An item without a type is listed too. */
  predicate IsListed(item: ItemData) {
    item.itemType.None? || item.itemType.value !in HiddenTypes
  }

  /** The last names of the creators, `""` where one is missing. */
  function LastNames(item: ItemData): seq<string> {
    var cs := item.creators.GetOr([]);
    seq(|cs|, i requires 0 <= i < |cs| => cs[i].lastName.GetOr(""))
  }

  /** One row of the listing. */
  function Summarize(item: ItemData): ItemSummary {
    ItemSummary(
      item.title,
      item.key,
      JoinWith(LastNames(item), ", "),
      Prefix(item.date.GetOr(""), 4),
      item.url.GetOr(""))
  }

  /**
   * A row keeps the title and key, holds the first (at most) four
   * characters of the date as the year and the URL as the link, with `""`
   * for a missing date or URL, and no authors when there is no creator.
   */
  lemma SummarizeMeaning(item: ItemData)
    ensures Summarize(item).title == item.title && Summarize(item).key == item.key
    ensures item.date.None? ==> Summarize(item).publicationYear == ""
    ensures item.date.Some? ==> Summarize(item).publicationYear <= item.date.value
    ensures item.date.Some? ==> |Summarize(item).publicationYear| == if |item.date.value| < 4 then |item.date.value| else 4
    ensures Summarize(item).link == if item.url.Some? then item.url.value else ""
    ensures item.creators.None? || item.creators.value == [] ==> Summarize(item).authors == ""
  {
  }

  /**
   * The authors field gives back each creator's last name, in order, when
   * split at ", ", provided there is a creator and no last name holds a comma.
   */
  lemma AuthorsSplit(item: ItemData)
    requires item.creators.Some? && item.creators.value != []
    requires forall c :: c in item.creators.value && c.lastName.Some? ==> ',' !in c.lastName.value
    ensures SplitOn(Summarize(item).authors, ", ") == LastNames(item)
  {
    var names := LastNames(item);
    var cs := item.creators.value;
    forall x | x in names ensures ", "[0] !in x {
      var i :| 0 <= i < |names| && names[i] == x;
      assert cs[i] in cs;
    }
    SplitOnOfJoin(names, ", ");
  }

  /** The listing: a row for each listed item, in order. */
  function ListItems(items: seq<ItemData>): seq<ItemSummary> {
    if items == [] then []
    else (if IsListed(items[0]) then [Summarize(items[0])] else []) + ListItems(items[1..])
  }

  /** The listing of a concatenation is the concatenation of the listings. */
  lemma {:induction false} ListItemsAppend(a: seq<ItemData>, b: seq<ItemData>)
    ensures ListItems(a + b) == ListItems(a) + ListItems(b)
  {
    if a == [] {
      assert a + b == b;
    } else {
      assert (a + b)[0] == a[0] && (a + b)[1..] == a[1..] + b;
      ListItemsAppend(a[1..], b);
    }
  }

  /** One item is listed, as its summary, exactly when its type is not hidden. */
  lemma ListItemsSingle(item: ItemData)
    ensures ListItems([item]) == if IsListed(item) then [Summarize(item)] else []
  {
    assert [item][1..] == [];
  }

  /** The number of listed items. */
  function CountListed(items: seq<ItemData>): nat {
    if items == [] then 0 else (if IsListed(items[0]) then 1 else 0) + CountListed(items[1..])
  }

  /**
   * The listing has one row per listed item; every row is the summary of a
   * listed item; an attachment, note or link never contributes a row.
   */
  lemma {:induction false} ListItemsMeaning(items: seq<ItemData>)
    ensures |ListItems(items)| == CountListed(items) <= |items|
    ensures forall s :: s in ListItems(items) ==> exists item :: item in items && IsListed(item) && s == Summarize(item)
    ensures (forall item :: item in items ==> !IsListed(item)) ==> ListItems(items) == []
  {
    if items != [] {
      ListItemsMeaning(items[1..]);
      assert items[0] in items;
      forall item | item in items[1..] ensures item in items { }
    }
  }

  // ---------------------------------------------------------------------
  // A PubMed article as a new item
  // ---------------------------------------------------------------------

  /** An `Author` element: its `LastName` and `ForeName` texts, when present. */
  datatype PubMedAuthor = PubMedAuthor(lastName: Option<string>, foreName: Option<string>)

  /** A creator of the new item. */
  datatype NewCreator = NewCreator(creatorType: string, lastName: string, firstName: string)

  /** An author with a non-empty last name becomes a creator; the first name defaults to `""`. */
  predicate HasLastName(a: PubMedAuthor) {
    a.lastName.Some? && a.lastName.value != ""
  }

  function AsCreator(a: PubMedAuthor): NewCreator
    requires HasLastName(a)
  {
    NewCreator("author", a.lastName.value, a.foreName.GetOr(""))
  }

  /** The creators of the new item, from its authors in order. */
  function CreatorsOf(authors: seq<PubMedAuthor>): seq<NewCreator> {
    if authors == [] then []
    else (if HasLastName(authors[0]) then [AsCreator(authors[0])] else []) + CreatorsOf(authors[1..])
  }

  /**
   * Every creator is an author with a non-empty last name; there is one
   * creator per such author; none is made up.
   */
  lemma {:induction false} CreatorsOfMeaning(authors: seq<PubMedAuthor>)
    ensures |CreatorsOf(authors)| <= |authors|
    ensures forall c :: c in CreatorsOf(authors) ==> c.creatorType == "author" && c.lastName != ""
    ensures forall c :: c in CreatorsOf(authors) ==> exists a :: a in authors && HasLastName(a) && c == AsCreator(a)
    ensures (forall a :: a in authors ==> HasLastName(a)) ==> |CreatorsOf(authors)| == |authors|
  {
    if authors != [] {
      CreatorsOfMeaning(authors[1..]);
      assert authors[0] in authors;
      forall a | a in authors[1..] ensures a in authors { }
    }
  }

  lemma {:induction false} CreatorsOfAppend(a: seq<PubMedAuthor>, b: seq<PubMedAuthor>)
    ensures CreatorsOf(a + b) == CreatorsOf(a) + CreatorsOf(b)
  {
    if a == [] {
      assert a + b == b;
    } else {
      assert (a + b)[0] == a[0] && (a + b)[1..] == a[1..] + b;
      CreatorsOfAppend(a[1..], b);
    }
  }

  /** The authors loop: it appends the creator of each author with a last name. */
  method CollectCreators(authors: seq<PubMedAuthor>) returns (creators: seq<NewCreator>)
    ensures creators == CreatorsOf(authors)
  {
    creators := [];
    var i := 0;
    while i < |authors|
      invariant 0 <= i <= |authors|
      invariant creators == CreatorsOf(authors[..i])
    {
      var author := authors[i];
      assert authors[..i + 1] == authors[..i] + [author];
      CreatorsOfAppend(authors[..i], [author]);
      assert [author][1..] == [];
      if author.lastName.Some? && author.lastName.value != "" {
        creators := creators + [NewCreator("author", author.lastName.value, author.foreName.GetOr(""))];
      }
      i := i + 1;
    }
    assert authors[..i] == authors;
  }

  /** An `ELocationID` element: its `EIdType` attribute and its text, when present. */
  datatype ELocationId = ELocationId(idType: Option<string>, text: Option<string>)

  /** Index of the first identifier, from `i` on, of type "doi". */
  function FirstDoiIndex(ids: seq<ELocationId>, i: nat): (r: Option<nat>)
    requires i <= |ids|
    ensures r.Some? ==> i <= r.value < |ids| && ids[r.value].idType == Some("doi")
    ensures r.Some? ==> forall j :: i <= j < r.value ==> ids[j].idType != Some("doi")
    ensures r.None? ==> forall j :: i <= j < |ids| ==> ids[j].idType != Some("doi")
    decreases |ids| - i
  {
    if i == |ids| then None
    else if ids[i].idType == Some("doi") then Some(i)
    else FirstDoiIndex(ids, i + 1)
  }

  /**
   * The DOI loop: the text of the first identifier of type "doi" (which may
   * itself be absent), or nothing when there is none.
   */
  method FindDoi(ids: seq<ELocationId>) returns (doi: Option<string>)
    ensures FirstDoiIndex(ids, 0).None? ==> doi == None
    ensures FirstDoiIndex(ids, 0).Some? ==> doi == ids[FirstDoiIndex(ids, 0).value].text
  {
    doi := None;
    var i := 0;
    while i < |ids|
      invariant 0 <= i <= |ids|
      invariant FirstDoiIndex(ids, i) == FirstDoiIndex(ids, 0)
    {
      if ids[i].idType == Some("doi") {
        doi := ids[i].text;
        return;
      }
      i := i + 1;
    }
  }
}
