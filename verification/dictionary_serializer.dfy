/**
 * DictionarySerializer: converts a tree of localized dictionary items to and
 * from a nested <DictionaryItem> element. Deserialization resolves each
 * element to a stored item (by guid, then by ItemKey, else a new item),
 * upserts its translations, saves it and recurses into the nested items.
 * Serialization writes an item with its translations sorted by ISO code and
 * its children sorted by ItemKey. IsUpdate and GetChanges decide whether a
 * document differs from the store by comparing hashes.
 */
module DictionarySerializer {
  import opened Optional
  import opened Text
  import opened Guids
  import opened Xml

  // ---------------------------------------------------------------------------
  // The localization store

  /** ILanguage: a language the site knows, with its culture code ("en-GB"). */
  datatype Language = Language(id: nat, isoCode: string)

  /** IDictionaryTranslation: the text of an item in one language. */
  datatype Translation = Translation(language: Language, value: string)

  /**
   * IDictionaryItem: key is the item's guid (Key), itemKey its name
   * (ItemKey), parent the Key of the item it is nested under.
   */
  datatype Item = Item(key: Guid, itemKey: string, parent: Option<Guid>, translations: seq<Translation>)

  /** Constants.Packaging.DictionaryItemNodeName. */
  const ItemNodeName: string := "DictionaryItem"

  /** The store's unique indexes: no two rows share a Key or an ItemKey. */
  ghost predicate UniqueRows(rows: seq<Item>) {
    forall i, j :: 0 <= i < j < |rows| ==> rows[i].key != rows[j].key && rows[i].itemKey != rows[j].itemKey
  }

  /** GetDictionaryItemById: the row with that Key. */
  function FindById(rows: seq<Item>, key: Guid): (r: Option<Item>)
    ensures r.None? <==> forall i :: 0 <= i < |rows| ==> rows[i].key != key
    ensures r.Some? ==> r.value in rows && r.value.key == key
  {
    if rows == [] then None
    else if rows[0].key == key then Some(rows[0])
    else
      var r := FindById(rows[1..], key);
      assert forall i :: 1 <= i < |rows| ==> rows[i] == rows[1..][i - 1];
      r
  }

  /** DictionaryItemExists. */
  predicate ItemKeyExists(rows: seq<Item>, itemKey: string) {
    exists i :: 0 <= i < |rows| && rows[i].itemKey == itemKey
  }

  /** GetDictionaryItemByKey: the row with that ItemKey. */
  function FindByItemKey(rows: seq<Item>, itemKey: string): (r: Option<Item>)
    ensures r.None? <==> !ItemKeyExists(rows, itemKey)
    ensures r.Some? ==> r.value in rows && r.value.itemKey == itemKey
  {
    if rows == [] then None
    else if rows[0].itemKey == itemKey then Some(rows[0])
    else
      var r := FindByItemKey(rows[1..], itemKey);
      assert forall i :: 1 <= i < |rows| ==> rows[i] == rows[1..][i - 1];
      r
  }

  /** In a store with unique indexes, a row is found by its own Key and by its own ItemKey. */
  lemma FindsOwnRow(rows: seq<Item>, item: Item)
    requires UniqueRows(rows) && item in rows
    ensures FindById(rows, item.key) == Some(item)
    ensures FindByItemKey(rows, item.itemKey) == Some(item)
  {
    var k :| 0 <= k < |rows| && rows[k] == item;
    var a := FindById(rows, item.key).value;
    var b := FindByItemKey(rows, item.itemKey).value;
    var i :| 0 <= i < |rows| && rows[i] == a;
    var j :| 0 <= j < |rows| && rows[j] == b;
    assert i == k && j == k;
  }

  // ---------------------------------------------------------------------------
  // Translations

  /** The value of the first translation in the language with this id. */
  function ValueOf(ts: seq<Translation>, languageId: nat): (r: Option<string>)
    ensures r.None? <==> forall i :: 0 <= i < |ts| ==> ts[i].language.id != languageId
    ensures r.Some? ==> exists i :: 0 <= i < |ts| && ts[i].language.id == languageId && r.value == ts[i].value
  {
    if ts == [] then None
    else if ts[0].language.id == languageId then Some(ts[0].value)
    else
      assert forall i :: 1 <= i < |ts| ==> ts[i] == ts[1..][i - 1];
      ValueOf(ts[1..], languageId)
  }

  /**
   * ILocalizationService.AddOrUpdateDictionaryValue on the item's
   * translations: the translation in that language takes the new value, or
   * a translation is appended when there is none.
   */
  function Upsert(ts: seq<Translation>, language: Language, value: string): (r: seq<Translation>)
    ensures ValueOf(r, language.id) == Some(value)
    ensures forall id :: id != language.id ==> ValueOf(r, id) == ValueOf(ts, id)
  {
    if ts == [] then [Translation(language, value)]
    else if ts[0].language.id == language.id then [ts[0].(value := value)] + ts[1..]
    else [ts[0]] + Upsert(ts[1..], language, value)
  }

  /** XAttribute.ValueOrDefault(""): the attribute's text, or "" when it is missing. */
  function AttributeOrEmpty(e: Element, name: string): (s: string)
    ensures name in e.attrs ==> s == e.attrs[name]
    ensures name !in e.attrs ==> s == ""
  {
    match Attribute(e, name)
    case None => ""
    case Some(v) => v
  }

  /** languages.FirstOrDefault(x => x.IsoCode == isoCode). */
  function FindLanguage(languages: seq<Language>, isoCode: string): (r: Option<Language>)
    ensures r.None? <==> forall i :: 0 <= i < |languages| ==> languages[i].isoCode != isoCode
    ensures r.Some? ==> r.value in languages && r.value.isoCode == isoCode
  {
    if languages == [] then None
    else if languages[0].isoCode == isoCode then Some(languages[0])
    else
      assert forall i :: 1 <= i < |languages| ==> languages[i] == languages[1..][i - 1];
      FindLanguage(languages[1..], isoCode)
  }

  /**
   * The language a <Value> element is written in: its LanguageCultureAlias,
   * when that is not empty and is the IsoCode of a known language.
   */
  function ValueLanguage(v: Element, languages: seq<Language>): (r: Option<Language>)
    ensures r.Some? ==> r.value in languages && r.value.isoCode == AttributeOrEmpty(v, "LanguageCultureAlias") != ""
    ensures r.None? <==> AttributeOrEmpty(v, "LanguageCultureAlias") == ""
                         || forall i :: 0 <= i < |languages| ==> languages[i].isoCode != AttributeOrEmpty(v, "LanguageCultureAlias")
  {
    var alias := AttributeOrEmpty(v, "LanguageCultureAlias");
    if alias == "" then None else FindLanguage(languages, alias)
  }

  /** One turn of the loop over the <Value> elements: skipped, or an upsert. */
  function ApplyValue(ts: seq<Translation>, v: Element, languages: seq<Language>): seq<Translation> {
    match ValueLanguage(v, languages)
    case None => ts
    case Some(language) => Upsert(ts, language, Value(v))
  }

  /** The translations after the loop has handled every element of vs, in order. */
  function ApplyValues(ts: seq<Translation>, vs: seq<Element>, languages: seq<Language>): seq<Translation> {
    if vs == [] then ts else ApplyValue(ApplyValues(ts, vs[..|vs| - 1], languages), vs[|vs| - 1], languages)
  }

  /** The text of the last element of vs written in the language with this id. */
  function LastValueFor(vs: seq<Element>, languages: seq<Language>, languageId: nat): (r: Option<string>)
    ensures r.None? <==> forall i :: 0 <= i < |vs| ==>
                           ValueLanguage(vs[i], languages).None? || ValueLanguage(vs[i], languages).value.id != languageId
    ensures r.Some? ==> exists i :: 0 <= i < |vs| && ValueLanguage(vs[i], languages).Some? &&
                           ValueLanguage(vs[i], languages).value.id == languageId && r.value == Value(vs[i])
  {
    if vs == [] then None
    else
      var v := vs[|vs| - 1];
      var l := ValueLanguage(v, languages);
      assert forall i :: 0 <= i < |vs| - 1 ==> vs[..|vs| - 1][i] == vs[i];
      if l.Some? && l.value.id == languageId then Some(Value(v)) else LastValueFor(vs[..|vs| - 1], languages, languageId)
  }

  /**
   * After the loop, an item's value in a language is the text of the last
   * <Value> element in that language, and its old value when there is none:
   * elements in unknown or empty languages change nothing.
   */
  lemma {:induction false} LastValueWins(ts: seq<Translation>, vs: seq<Element>, languages: seq<Language>, languageId: nat)
    ensures ValueOf(ApplyValues(ts, vs, languages), languageId) ==
            match LastValueFor(vs, languages, languageId)
            case Some(text) => Some(text)
            case None => ValueOf(ts, languageId)
  {
    if vs != [] {
      LastValueWins(ts, vs[..|vs| - 1], languages, languageId);
    }
  }

  // ---------------------------------------------------------------------------
  // Resolving a <DictionaryItem> element to an item

  /** The item a document element stands for; isNew when it was created rather than found; draws counts Guid.NewGuid calls. */
  datatype Resolution = Resolution(item: Item, isNew: bool, draws: nat)

  /** The document's guid attribute: ValueOrDefault(Guid.Empty). */
  function DocumentGuid(node: Element): Guid {
    ValueOrEmpty(Attribute(node, "guid"))
  }

  /**
   * Looks the element up by its guid, then by its ItemKey, and otherwise
   * creates an item: under parent when one is given, else at the root,
   * where it takes the document's guid as its Key. freshKey is the next
   * value of Guid.NewGuid().
   */
  function Resolve(rows: seq<Item>, node: Element, itemKey: string, parent: Option<Guid>, freshKey: Guid): (r: Resolution)
    ensures r.item.itemKey == itemKey
    ensures DocumentGuid(node) != Empty && FindById(rows, DocumentGuid(node)).Some? ==>
              !r.isNew && r.item == FindById(rows, DocumentGuid(node)).value.(itemKey := itemKey)
    ensures (DocumentGuid(node) == Empty || FindById(rows, DocumentGuid(node)).None?) && ItemKeyExists(rows, itemKey) ==>
              !r.isNew && r.item == FindByItemKey(rows, itemKey).value.(itemKey := itemKey)
    ensures !r.isNew ==> exists i :: 0 <= i < |rows| && r.item == rows[i].(itemKey := itemKey)
    ensures r.isNew <==> (DocumentGuid(node) == Empty || FindById(rows, DocumentGuid(node)).None?) && !ItemKeyExists(rows, itemKey)
    ensures r.isNew ==> r.item.parent == parent && r.item.translations == []
    ensures r.isNew && parent.Some? ==> r.item.key == freshKey && r.draws == 1
    ensures r.isNew && parent.None? ==>
              if DocumentGuid(node) != Empty then r.item.key == DocumentGuid(node) && r.draws == 0
              else r.item.key == freshKey && r.draws == 1
    ensures !r.isNew ==> r.draws == 0
  {
    var guid := DocumentGuid(node);
    var byId := if guid != Empty then FindById(rows, guid) else None;
    var found := if byId.None? && ItemKeyExists(rows, itemKey) then FindByItemKey(rows, itemKey) else byId;
    match found
    case Some(row) => Resolution(row.(itemKey := itemKey), false, 0)
    case None =>
      if parent.Some? then Resolution(Item(freshKey, itemKey, parent, []), true, 1)
      else if guid != Empty then Resolution(Item(guid, itemKey, None, []), true, 0)
      else Resolution(Item(freshKey, itemKey, None, []), true, 1)
  }

  // ---------------------------------------------------------------------------
  // Saving

  function Keys(rows: seq<Item>): set<Guid> {
    set r | r in rows :: r.key
  }

  /** Another row than the one with this Key already has this ItemKey. */
  predicate ItemKeyTaken(rows: seq<Item>, key: Guid, itemKey: string) {
    exists i :: 0 <= i < |rows| && rows[i].key != key && rows[i].itemKey == itemKey
  }

  /** The rows with the row whose Key is item's replaced by item. */
  function Replace(rows: seq<Item>, item: Item): (r: seq<Item>)
    ensures |r| == |rows|
    ensures forall i :: 0 <= i < |rows| ==> r[i] == if rows[i].key == item.key then item else rows[i]
  {
    seq(|rows|, i requires 0 <= i < |rows| => if rows[i].key == item.key then item else rows[i])
  }

  /**
   * ILocalizationService.Save: a new item is inserted, a stored one updated
   * in place. The store's unique indexes make the save fail (None) when a
   * new item's Key or ItemKey is already used, or when a stored item is
   * renamed to the ItemKey of another row.
   */
  function SaveRows(rows: seq<Item>, item: Item, isNew: bool): (r: Option<seq<Item>>)
    ensures r.None? <==> if isNew then item.key in Keys(rows) || ItemKeyExists(rows, item.itemKey)
                         else ItemKeyTaken(rows, item.key, item.itemKey)
  {
    if isNew then
      if FindById(rows, item.key).Some? || ItemKeyExists(rows, item.itemKey) then None else Some(rows + [item])
    else
      if ItemKeyTaken(rows, item.key, item.itemKey) then None else Some(Replace(rows, item))
  }

  /** Inserting keeps the store's unique indexes and adds the item's row. */
  lemma InsertKeepsRows(rows: seq<Item>, item: Item)
    requires UniqueRows(rows) && SaveRows(rows, item, true).Some?
    ensures UniqueRows(rows + [item])
    ensures Keys(rows + [item]) == Keys(rows) + {item.key}
  {
    forall i | 0 <= i < |rows| ensures rows[i].key != item.key && rows[i].itemKey != item.itemKey {
      assert rows[i] in rows;
    }
    var r := rows + [item];
    assert forall i :: 0 <= i < |rows| ==> r[i] == rows[i];
  }

  lemma ReplaceKeepsUnique(rows: seq<Item>, item: Item)
    requires UniqueRows(rows) && !ItemKeyTaken(rows, item.key, item.itemKey)
    ensures UniqueRows(Replace(rows, item))
  {
  }

  lemma ReplaceKeepsKeys(rows: seq<Item>, item: Item)
    requires item.key in Keys(rows)
    ensures Keys(Replace(rows, item)) == Keys(rows)
    ensures item in Replace(rows, item)
  {
    var r := Replace(rows, item);
    var k :| k in rows && k.key == item.key;
    var n :| 0 <= n < |rows| && rows[n] == k;
    assert r[n] == item;
    forall x | x in Keys(r) ensures x in Keys(rows) {
      var y :| y in r && y.key == x;
      var i :| 0 <= i < |r| && r[i] == y;
      assert rows[i] in rows;
    }
    forall x | x in Keys(rows) ensures x in Keys(r) {
      var y :| y in rows && y.key == x;
      var i :| 0 <= i < |rows| && rows[i] == y;
      assert r[i] in r;
    }
  }

  /** A save keeps the store's unique indexes, removes no row, and leaves the item in the store. */
  lemma SaveKeepsRows(rows: seq<Item>, item: Item, isNew: bool)
    requires UniqueRows(rows) && SaveRows(rows, item, isNew).Some?
    requires !isNew ==> item.key in Keys(rows)
    ensures UniqueRows(SaveRows(rows, item, isNew).value)
    ensures Keys(SaveRows(rows, item, isNew).value) == Keys(rows) + {item.key}
    ensures item in SaveRows(rows, item, isNew).value
  {
    if isNew {
      InsertKeepsRows(rows, item);
    } else {
      ReplaceKeepsUnique(rows, item);
      ReplaceKeepsKeys(rows, item);
    }
  }

  // ---------------------------------------------------------------------------
  // Deserializing a tree of items

  /** The store's rows and how many values of Guid.NewGuid() have been used. */
  datatype Store = Store(rows: seq<Item>, drawn: nat)

  /** What UpdateDictionaryValues returns: the item, null for a missing Key attribute, or a store exception. */
  datatype Outcome = Imported(item: Item) | MissingKey | StoreFailure

  datatype ImportResult = ImportResult(store: Store, outcome: Outcome)

  /** The nested items' run: the store after it, and whether a save threw. */
  datatype ChildrenResult = ChildrenResult(store: Store, failed: bool)

  /** The item an element stands for, with the element's <Value> elements applied to its translations. */
  function WithValues(res: Resolution, node: Element, languages: seq<Language>): Item {
    res.item.(translations := ApplyValues(res.item.translations, Elements(node, "Value"), languages))
  }

  /** The element's own item and the store after its save; saved is false when the save threw. */
  datatype Step = Step(item: Item, store: Store, saved: bool)

  /** Resolve the element, apply its values and save the item, drawing keys from newGuid. */
  function SaveStep(s: Store, newGuid: nat -> Guid, node: Element, itemKey: string, parent: Option<Guid>,
                    languages: seq<Language>): Step
  {
    var res := Resolve(s.rows, node, itemKey, parent, newGuid(s.drawn));
    var item := WithValues(res, node, languages);
    var drawn := s.drawn + res.draws;
    match SaveRows(s.rows, item, res.isNew)
    case None => Step(item, Store(s.rows, drawn), false)
    case Some(rows) => Step(item, Store(rows, drawn), true)
  }

  /**
   * What UpdateDictionaryValues(node, parent, languages) does to the store:
   * resolve the element, apply its values, save the item once, then import
   * every nested <DictionaryItem> under the item's Key, in document order.
   * newGuid(n) is the n-th value of Guid.NewGuid().
   */
  function Import(s: Store, newGuid: nat -> Guid, node: Element, parent: Option<Guid>, languages: seq<Language>): (r: ImportResult)
    ensures r.outcome.MissingKey? <==> "Key" !in node.attrs
    ensures r.outcome.MissingKey? ==> r.store == s
    ensures r.outcome.Imported? ==> r.outcome.item.itemKey == node.attrs["Key"]
    ensures r.store.drawn >= s.drawn
    decreases node, 1
  {
    if "Key" !in node.attrs then ImportResult(s, MissingKey)
    else
      var step := SaveStep(s, newGuid, node, node.attrs["Key"], parent, languages);
      if !step.saved then ImportResult(step.store, StoreFailure)
      else
        var c := ImportChildren(step.store, newGuid, node, Elements(node, ItemNodeName), step.item.key, languages);
        ImportResult(c.store, if c.failed then StoreFailure else Imported(step.item))
  }

  /** The nested items, imported one after the other; a save that throws ends the run. */
  function ImportChildren(s: Store, newGuid: nat -> Guid, node: Element, children: seq<Element>, key: Guid,
                          languages: seq<Language>): (r: ChildrenResult)
    requires forall c :: c in children ==> c in node.children
    ensures r.store.drawn >= s.drawn
    decreases node, 0, |children|
  {
    if children == [] then ChildrenResult(s, false)
    else
      assert children[0] in node.children;
      var first := Import(s, newGuid, children[0], Some(key), languages);
      if first.outcome.StoreFailure? then ChildrenResult(first.store, true)
      else ImportChildren(first.store, newGuid, node, children[1..], key, languages)
  }

  /** A save that goes through keeps the unique indexes, removes no row and stores the item's Key. */
  lemma SaveStepKeepsRows(s: Store, newGuid: nat -> Guid, node: Element, itemKey: string, parent: Option<Guid>,
                          languages: seq<Language>)
    requires UniqueRows(s.rows)
    ensures var step := SaveStep(s, newGuid, node, itemKey, parent, languages);
            step.saved ==> UniqueRows(step.store.rows) && Keys(s.rows) <= Keys(step.store.rows) && step.item.key in Keys(step.store.rows)
    ensures !SaveStep(s, newGuid, node, itemKey, parent, languages).saved ==>
              SaveStep(s, newGuid, node, itemKey, parent, languages).store.rows == s.rows
  {
    var res := Resolve(s.rows, node, itemKey, parent, newGuid(s.drawn));
    var item := WithValues(res, node, languages);
    if SaveRows(s.rows, item, res.isNew).Some? {
      if !res.isNew {
        var i :| 0 <= i < |s.rows| && res.item == s.rows[i].(itemKey := itemKey);
        assert s.rows[i] in s.rows;
      }
      SaveKeepsRows(s.rows, item, res.isNew);
    }
  }

  /**
   * An import keeps the store's unique indexes and deletes no row: every
   * Key stored before is stored after, even when a nested save threw.
   */
  lemma {:induction false} ImportKeepsRows(s: Store, newGuid: nat -> Guid, node: Element, parent: Option<Guid>, languages: seq<Language>)
    requires UniqueRows(s.rows)
    ensures UniqueRows(Import(s, newGuid, node, parent, languages).store.rows)
    ensures Keys(s.rows) <= Keys(Import(s, newGuid, node, parent, languages).store.rows)
    decreases node, 1
  {
    if "Key" in node.attrs {
      var step := SaveStep(s, newGuid, node, node.attrs["Key"], parent, languages);
      SaveStepKeepsRows(s, newGuid, node, node.attrs["Key"], parent, languages);
      if step.saved {
        ChildrenKeepRows(step.store, newGuid, node, Elements(node, ItemNodeName), step.item.key, languages);
      }
    }
  }

  lemma {:induction false} ChildrenKeepRows(s: Store, newGuid: nat -> Guid, node: Element, children: seq<Element>, key: Guid,
                                            languages: seq<Language>)
    requires forall c :: c in children ==> c in node.children
    requires UniqueRows(s.rows)
    ensures UniqueRows(ImportChildren(s, newGuid, node, children, key, languages).store.rows)
    ensures Keys(s.rows) <= Keys(ImportChildren(s, newGuid, node, children, key, languages).store.rows)
    decreases node, 0, |children|
  {
    if children != [] {
      assert children[0] in node.children;
      var first := Import(s, newGuid, children[0], Some(key), languages);
      ImportKeepsRows(s, newGuid, children[0], Some(key), languages);
      if !first.outcome.StoreFailure? {
        ChildrenKeepRows(first.store, newGuid, node, children[1..], key, languages);
      }
    }
  }

  /** An imported item is in the store afterwards, under its Key, and its ItemKey is the element's Key attribute. */
  lemma ImportedIsStored(s: Store, newGuid: nat -> Guid, node: Element, parent: Option<Guid>, languages: seq<Language>)
    requires UniqueRows(s.rows)
    requires Import(s, newGuid, node, parent, languages).outcome.Imported?
    ensures Import(s, newGuid, node, parent, languages).outcome.item.key in Keys(Import(s, newGuid, node, parent, languages).store.rows)
  {
    var step := SaveStep(s, newGuid, node, node.attrs["Key"], parent, languages);
    SaveStepKeepsRows(s, newGuid, node, node.attrs["Key"], parent, languages);
    ChildrenKeepRows(step.store, newGuid, node, Elements(node, ItemNodeName), step.item.key, languages);
  }

  /**
   * An imported item's value in each language is the text of the element's
   * last <Value> in that language, and the stored item's value otherwise.
   */
  lemma ImportedValues(s: Store, newGuid: nat -> Guid, node: Element, parent: Option<Guid>, languages: seq<Language>, languageId: nat)
    requires Import(s, newGuid, node, parent, languages).outcome.Imported?
    ensures var res := Resolve(s.rows, node, node.attrs["Key"], parent, newGuid(s.drawn));
            ValueOf(Import(s, newGuid, node, parent, languages).outcome.item.translations, languageId) ==
            match LastValueFor(Elements(node, "Value"), languages, languageId)
            case Some(text) => Some(text)
            case None => ValueOf(res.item.translations, languageId)
  {
    var res := Resolve(s.rows, node, node.attrs["Key"], parent, newGuid(s.drawn));
    assert Import(s, newGuid, node, parent, languages).outcome.item == WithValues(res, node, languages);
    LastValueWins(res.item.translations, Elements(node, "Value"), languages, languageId);
  }

  // ---------------------------------------------------------------------------
  // The service and the importer

  /**
   * ILocalizationService over the dictionary tables: the rows in storage
   * order, the site's languages, and Guid.NewGuid() as the stream newGuid
   * of which the first drawn values have been used.
   */
  class LocalizationService {
    var rows: seq<Item>
    var drawn: nat
    const languages: seq<Language>
    const newGuid: nat -> Guid

    /** The tables' unique indexes hold. */
    ghost predicate Valid()
      reads this
    {
      UniqueRows(rows)
    }

    function State(): (s: Store)
      reads this
      ensures s.rows == rows && s.drawn == drawn
    {
      Store(rows, drawn)
    }

    constructor (languages: seq<Language>, newGuid: nat -> Guid)
      ensures rows == [] && drawn == 0 && Valid()
      ensures this.languages == languages && this.newGuid == newGuid
    {
      rows := [];
      drawn := 0;
      this.languages := languages;
      this.newGuid := newGuid;
    }

    /** Guid.NewGuid(), as Umbraco draws it for a new item's Key. */
    method NewKey() returns (g: Guid)
      modifies this
      ensures g == newGuid(old(drawn)) && drawn == old(drawn) + 1
      ensures rows == old(rows)
    {
      g := newGuid(drawn);
      drawn := drawn + 1;
    }

    /** Delete(item): removes the item's row. */
    method Delete(key: Guid)
      requires Valid()
      modifies this
      ensures Valid()
      ensures rows == RemoveKey(old(rows), key) && drawn == old(drawn)
    {
      RemoveKeyKeepsUnique(rows, key);
      rows := RemoveKey(rows, key);
    }

    /** Save(item): false when the store refuses it (an exception in the source). */
    method Save(item: Item, isNew: bool) returns (ok: bool)
      modifies this
      ensures ok <==> SaveRows(old(rows), item, isNew).Some?
      ensures rows == if ok then SaveRows(old(rows), item, isNew).value else old(rows)
      ensures drawn == old(drawn)
    {
      var saved := SaveRows(rows, item, isNew);
      ok := saved.Some?;
      if ok {
        rows := saved.value;
      }
    }
  }

  /** The item a document element stands for, found or created as Resolve describes, drawing new keys from svc. */
  method ResolveItem(svc: LocalizationService, node: Element, itemKey: string, parent: Option<Guid>)
    returns (item: Item, isNew: bool)
    modifies svc
    ensures var res := Resolve(old(svc.rows), node, itemKey, parent, svc.newGuid(old(svc.drawn)));
            item == res.item && isNew == res.isNew && svc.drawn == old(svc.drawn) + res.draws
    ensures svc.rows == old(svc.rows)
  {
    var guid := DocumentGuid(node);
    var found: Option<Item> := None;
    if guid != Empty {
      found := FindById(svc.rows, guid);
    }
    if found.None? && ItemKeyExists(svc.rows, itemKey) {
      found := FindByItemKey(svc.rows, itemKey);
    }
    if found.Some? {
      item, isNew := found.value, false;
    } else {
      isNew := true;
      if parent.Some? {
        var key := svc.NewKey();
        item := Item(key, itemKey, parent, []);
      } else if guid != Empty {
        item := Item(guid, itemKey, None, []);
      } else {
        var key := svc.NewKey();
        item := Item(key, itemKey, None, []);
      }
    }
    item := item.(itemKey := itemKey);
  }

  /** The loop over an element's <Value> elements: each one in a known, non-empty language upserts its text. */
  method UpdateValues(item: Item, values: seq<Element>, languages: seq<Language>) returns (r: Item)
    ensures r == item.(translations := ApplyValues(item.translations, values, languages))
  {
    var ts := item.translations;
    var i := 0;
    while i < |values|
      invariant 0 <= i <= |values|
      invariant ts == ApplyValues(item.translations, values[..i], languages)
    {
      var v := values[i];
      var languageId := AttributeOrEmpty(v, "LanguageCultureAlias");
      if languageId != "" {
        var language := FindLanguage(languages, languageId);
        if language.Some? {
          ts := Upsert(ts, language.value, Value(v));
        }
      }
      assert values[..i + 1][..i] == values[..i];
      i := i + 1;
    }
    assert values[..i] == values;
    r := item.(translations := ts);
  }

  /**
   * UpdateDictionaryValues: imports one <DictionaryItem> element and,
   * recursively, the items nested in it; the store ends as Import says.
   */
  method UpdateDictionaryValues(svc: LocalizationService, node: Element, parent: Option<Guid>, languages: seq<Language>)
    returns (r: Outcome)
    modifies svc
    ensures ImportResult(svc.State(), r) == Import(old(svc.State()), svc.newGuid, node, parent, languages)
    decreases node, 1
  {
    var keyNode := Attribute(node, "Key");
    if keyNode.None? {
      return MissingKey;
    }
    var itemKey := keyNode.value;
    ghost var step := SaveStep(svc.State(), svc.newGuid, node, itemKey, parent, languages);
    var item, isNew := ResolveItem(svc, node, itemKey, parent);
    item := UpdateValues(item, Elements(node, "Value"), languages);
    var ok := svc.Save(item, isNew);
    assert item == step.item && ok == step.saved && svc.State() == step.store;
    if !ok {
      return StoreFailure;
    }
    var failed := ImportNested(svc, node, Elements(node, ItemNodeName), item.key, languages);
    if failed {
      return StoreFailure;
    }
    return Imported(item);
  }

  /** The loop over the nested <DictionaryItem> elements; failed is true when a save threw, which ends the loop. */
  method ImportNested(svc: LocalizationService, node: Element, children: seq<Element>, key: Guid, languages: seq<Language>)
    returns (failed: bool)
    requires forall c :: c in children ==> c in node.children
    modifies svc
    ensures ChildrenResult(svc.State(), failed) == ImportChildren(old(svc.State()), svc.newGuid, node, children, key, languages)
    decreases node, 0
  {
    ghost var s0 := svc.State();
    var j := 0;
    while j < |children|
      invariant 0 <= j <= |children|
      invariant ImportChildren(svc.State(), svc.newGuid, node, children[j..], key, languages) ==
                ImportChildren(s0, svc.newGuid, node, children, key, languages)
    {
      assert children[j] in node.children;
      assert children[j..][0] == children[j] && children[j..][1..] == children[j + 1..];
      var c := UpdateDictionaryValues(svc, children[j], Some(key), languages);
      if c.StoreFailure? {
        return true;
      }
      j := j + 1;
    }
    return false;
  }

  /** SyncAttempt<IDictionaryItem>: success, the name reported and the item; Threw for an exception from the store. */
  datatype Deserialized = Attempted(success: bool, name: string, item: Option<Item>) | Threw

  /**
   * DeserializeCore: imports the element as a root item with the site's
   * languages; it succeeds when the element has a Key attribute and is
   * reported under that name, else under nameFromNode(node).
   */
  method DeserializeCore(svc: LocalizationService, node: Element, nameFromNode: Element -> string) returns (d: Deserialized)
    requires svc.Valid()
    modifies svc
    ensures svc.State() == Import(old(svc.State()), svc.newGuid, node, None, svc.languages).store
    ensures svc.Valid() && Keys(old(svc.rows)) <= Keys(svc.rows)
    ensures d.Threw? <==> Import(old(svc.State()), svc.newGuid, node, None, svc.languages).outcome.StoreFailure?
    ensures d.Attempted? ==> (d.success <==> "Key" in node.attrs) && (d.success <==> d.item.Some?)
    ensures d.Attempted? && d.success ==>
              d.name == node.attrs["Key"] && d.item.value.itemKey == d.name && d.item.value.key in Keys(svc.rows)
    ensures d.Attempted? && !d.success ==> d.name == nameFromNode(node)
  {
    ghost var s0 := svc.State();
    var r := UpdateDictionaryValues(svc, node, None, svc.languages);
    ImportKeepsRows(s0, svc.newGuid, node, None, svc.languages);
    match r
    case StoreFailure =>
      d := Threw;
    case MissingKey =>
      d := Attempted(false, nameFromNode(node), None);
    case Imported(item) =>
      ImportedIsStored(s0, svc.newGuid, node, None, svc.languages);
      d := Attempted(true, item.itemKey, Some(item));
  }

  // ---------------------------------------------------------------------------
  // Removing children that are no longer in the document

  /** The rows without the one(s) with this Key. */
  function RemoveKey(rows: seq<Item>, key: Guid): (r: seq<Item>)
    ensures forall x :: x in r <==> x in rows && x.key != key
  {
    if rows == [] then []
    else if rows[0].key == key then RemoveKey(rows[1..], key)
    else [rows[0]] + RemoveKey(rows[1..], key)
  }

  /** A row clashing with none of a unique tail can head it. */
  lemma ConsKeepsUnique(x: Item, tail: seq<Item>)
    requires UniqueRows(tail)
    requires forall y :: y in tail ==> x.key != y.key && x.itemKey != y.itemKey
    ensures UniqueRows([x] + tail)
  {
    var rows := [x] + tail;
    forall i, j | 0 <= i < j < |rows|
      ensures rows[i].key != rows[j].key && rows[i].itemKey != rows[j].itemKey
    {
      assert rows[j] == tail[j - 1];
      if i > 0 {
        assert rows[i] == tail[i - 1];
      }
    }
  }

  /** Removing rows keeps the store's unique indexes. */
  lemma {:induction false} RemoveKeyKeepsUnique(rows: seq<Item>, key: Guid)
    requires UniqueRows(rows)
    ensures UniqueRows(RemoveKey(rows, key))
  {
    if rows != [] {
      var rest := rows[1..];
      assert UniqueRows(rest) by {
        forall i, j | 0 <= i < j < |rest|
          ensures rest[i].key != rest[j].key && rest[i].itemKey != rest[j].itemKey
        {
          assert rest[i] == rows[i + 1] && rest[j] == rows[j + 1];
        }
      }
      RemoveKeyKeepsUnique(rest, key);
      if rows[0].key != key {
        forall y | y in RemoveKey(rest, key)
          ensures rows[0].key != y.key && rows[0].itemKey != y.itemKey
        {
          var j :| 0 <= j < |rest| && rest[j] == y;
          assert rows[j + 1] == y;
        }
        ConsKeepsUnique(rows[0], RemoveKey(rest, key));
      }
    }
  }

  /** names.InvariantContains(s): some name equals s ignoring case. */
  predicate InvariantContains(names: seq<string>, s: string) {
    exists n :: n in names && EqualsIgnoreCase(n, s)
  }

  /** The children whose ItemKey is not among the names. */
  function Missing(names: seq<string>, children: seq<Item>): (r: seq<Item>)
    ensures forall x :: x in r <==> x in children && !InvariantContains(names, x.itemKey)
  {
    if children == [] then []
    else if InvariantContains(names, children[0].itemKey) then Missing(names, children[1..])
    else [children[0]] + Missing(names, children[1..])
  }

  /** The rows after deleting each item of missing in turn. */
  function Deleted(rows: seq<Item>, missing: seq<Item>): seq<Item> {
    if missing == [] then rows else RemoveKey(Deleted(rows, missing[..|missing| - 1]), missing[|missing| - 1].key)
  }

  /** A row survives the deletions exactly when none of the deleted items has its Key. */
  lemma {:induction false} DeletedRows(rows: seq<Item>, missing: seq<Item>)
    ensures forall x :: x in Deleted(rows, missing) <==> x in rows && forall m :: m in missing ==> m.key != x.key
  {
    if missing != [] {
      var init := missing[..|missing| - 1];
      DeletedRows(rows, init);
      assert forall m :: m in missing <==> m in init || m == missing[|missing| - 1];
    }
  }

  /**
   * CleanChildren: deletes every child whose ItemKey is not among names
   * (ignoring case). Its only call in UpdateDictionaryValues is commented
   * out, so no import reaches it.
   */
  method CleanChildren(svc: LocalizationService, names: seq<string>, children: seq<Item>)
    requires svc.Valid()
    modifies svc
    ensures svc.Valid()
    ensures svc.rows == Deleted(old(svc.rows), Missing(names, children))
    ensures svc.drawn == old(svc.drawn)
  {
    if children == [] {
      return;
    }
    var missing := Missing(names, children);
    var i := 0;
    while i < |missing|
      invariant 0 <= i <= |missing|
      invariant svc.Valid()
      invariant svc.rows == Deleted(old(svc.rows), missing[..i]) && svc.drawn == old(svc.drawn)
    {
      assert missing[..i + 1][..i] == missing[..i];
      svc.Delete(missing[i].key);
      i := i + 1;
    }
    assert missing[..i] == missing;
  }

  /** After CleanChildren a row is kept exactly when every child with its Key is named in names. */
  lemma CleanChildrenKeeps(rows: seq<Item>, names: seq<string>, children: seq<Item>)
    ensures forall x :: x in Deleted(rows, Missing(names, children)) <==>
              x in rows && forall c :: c in children && c.key == x.key ==> InvariantContains(names, c.itemKey)
  {
    DeletedRows(rows, Missing(names, children));
  }

  // ---------------------------------------------------------------------------
  // Serializing

  function IsoCodeOf(t: Translation): string {
    t.language.isoCode
  }

  function ItemKeyOf(x: Item): string {
    x.itemKey
  }

  /** A translation as <Value LanguageId=".." LanguageCultureAlias="..">, its text as CDATA. */
  function ValueElement(t: Translation): Element {
    Element("Value", map["LanguageId" := DecimalString(t.language.id), "LanguageCultureAlias" := t.language.isoCode], t.value, [])
  }

  function ValueElements(ts: seq<Translation>): (r: seq<Element>)
    ensures |r| == |ts| && forall i :: 0 <= i < |ts| ==> r[i] == ValueElement(ts[i])
  {
    seq(|ts|, i requires 0 <= i < |ts| => ValueElement(ts[i]))
  }

  /** GetDictionaryItemChildren(key): the rows directly under that Key, in storage order. */
  function ChildrenOf(rows: seq<Item>, key: Guid): (r: seq<Item>)
    ensures forall x :: x in r <==> x in rows && x.parent == Some(key)
  {
    if rows == [] then []
    else if rows[0].parent == Some(key) then [rows[0]] + ChildrenOf(rows[1..], key)
    else ChildrenOf(rows[1..], key)
  }

  /** The attributes written: Key=ItemKey, and guid=Key on the top element. */
  function ItemAttributes(item: Item, top: bool): map<string, string> {
    if top then map["Key" := item.itemKey, "guid" := Format(item.key)] else map["Key" := item.itemKey]
  }

  /**
   * GetDictionaryElement(item, top): a <DictionaryItem Key=ItemKey> element,
   * with guid=Key on the top element only, holding the translations ordered
   * by ISO code and then the stored children ordered by ItemKey, each
   * written the same way. pool holds the Keys whose children may still be
   * written, so that a cycle of parent links ends.
   */
  function GetDictionaryElement(rows: seq<Item>, item: Item, top: bool, pool: set<Guid>): (e: Element)
    ensures e.name == ItemNodeName && e.text == ""
    decreases pool, 1
  {
    var children := if item.key in pool then ChildElements(rows, item.key, pool) else [];
    Element(ItemNodeName, ItemAttributes(item, top), "", ValueElements(SortBy(item.translations, IsoCodeOf)) + children)
  }

  /** The elements of the children of the item with this Key, ordered by ItemKey. */
  function ChildElements(rows: seq<Item>, key: Guid, pool: set<Guid>): (r: seq<Element>)
    requires key in pool
    ensures forall i :: 0 <= i < |r| ==> r[i].name == ItemNodeName
    decreases pool, 0
  {
    var kids := SortBy(ChildrenOf(rows, key), ItemKeyOf);
    seq(|kids|, i requires 0 <= i < |kids| => GetDictionaryElement(rows, kids[i], false, pool - {key}))
  }

  /** The Keys whose children an export may write: every stored Key and the item's own. */
  function ExportPool(rows: seq<Item>, item: Item): set<Guid> {
    Keys(rows) + {item.key}
  }

  /** SyncAttempt<XElement>: success, the name reported and the element. */
  datatype Serialized = Serialized(success: bool, name: string, element: Element)

  /** SerializeCore: always succeeds, reported under the item's ItemKey. */
  function SerializeCore(rows: seq<Item>, item: Item): (r: Serialized)
    ensures r.success && r.name == item.itemKey
  {
    Serialized(true, item.itemKey, GetDictionaryElement(rows, item, true, ExportPool(rows, item)))
  }

  /** The element's Key attribute is the ItemKey, and it carries guid (the Key, "D" form) exactly on the top element. */
  lemma ElementAttributes(rows: seq<Item>, item: Item, top: bool, pool: set<Guid>)
    ensures var e := GetDictionaryElement(rows, item, top, pool);
            && "Key" in e.attrs && e.attrs["Key"] == item.itemKey
            && ("guid" in e.attrs <==> top)
            && (top ==> e.attrs["guid"] == Format(item.key) && TryParse(e.attrs["guid"]) == Some(item.key))
  {
    ParseFormat(item.key);
  }

  /** The <Value> elements come first, then the nested items. */
  lemma ElementParts(rows: seq<Item>, item: Item, top: bool, pool: set<Guid>)
    ensures var e := GetDictionaryElement(rows, item, top, pool);
            var children := if item.key in pool then ChildElements(rows, item.key, pool) else [];
            && Elements(e, "Value") == ValueElements(SortBy(item.translations, IsoCodeOf))
            && Elements(e, ItemNodeName) == children
  {
    var values := ValueElements(SortBy(item.translations, IsoCodeOf));
    var children := if item.key in pool then ChildElements(rows, item.key, pool) else [];
    assert GetDictionaryElement(rows, item, top, pool).children == values + children;
    SplitByName(values, children);
  }

  lemma SplitByName(values: seq<Element>, children: seq<Element>)
    requires forall i :: 0 <= i < |values| ==> values[i].name == "Value"
    requires forall i :: 0 <= i < |children| ==> children[i].name == ItemNodeName
    ensures Named(values + children, "Value") == values
    ensures Named(values + children, ItemNodeName) == children
  {
    NamedAppend(values, children, "Value");
    NamedAppend(values, children, ItemNodeName);
    NamedKeepsAll(values, "Value");
    NamedDropsAll(values, ItemNodeName);
    NamedDropsAll(children, "Value");
    NamedKeepsAll(children, ItemNodeName);
  }

  /**
   * The element's <Value> children are its translations, every one exactly
   * once, ordered by ISO code.
   */
  lemma ElementValues(rows: seq<Item>, item: Item, top: bool, pool: set<Guid>)
    ensures var vs := Elements(GetDictionaryElement(rows, item, top, pool), "Value");
            exists us :: multiset(us) == multiset(item.translations) && SortedBy(us, IsoCodeOf) && vs == ValueElements(us)
  {
    ElementParts(rows, item, top, pool);
    var us := SortBy(item.translations, IsoCodeOf);
    assert multiset(us) == multiset(item.translations) && SortedBy(us, IsoCodeOf);
  }

  /**
   * The element's <DictionaryItem> children are the item's stored children,
   * every one exactly once, ordered by ItemKey and written without guid.
   */
  lemma ElementChildren(rows: seq<Item>, item: Item, top: bool, pool: set<Guid>)
    requires item.key in pool
    ensures var cs := Elements(GetDictionaryElement(rows, item, top, pool), ItemNodeName);
            exists kids :: multiset(kids) == multiset(ChildrenOf(rows, item.key)) && SortedBy(kids, ItemKeyOf) &&
              |cs| == |kids| &&
              forall i :: 0 <= i < |kids| ==> cs[i] == GetDictionaryElement(rows, kids[i], false, pool - {item.key})
  {
    ElementParts(rows, item, top, pool);
    var kids := SortBy(ChildrenOf(rows, item.key), ItemKeyOf);
    assert multiset(kids) == multiset(ChildrenOf(rows, item.key)) && SortedBy(kids, ItemKeyOf);
  }

  // ---------------------------------------------------------------------------
  // Exporting and importing again

  /** Every translation is in a language the site knows under its ISO code. */
  predicate KnownLanguages(ts: seq<Translation>, languages: seq<Language>) {
    forall t :: t in ts ==> t.language.isoCode != "" && FindLanguage(languages, t.language.isoCode) == Some(t.language)
  }

  /** An item holds at most one text per language. */
  ghost predicate OneValuePerLanguage(ts: seq<Translation>) {
    forall a, b :: a in ts && b in ts && a.language.id == b.language.id ==> a == b
  }

  /** A written <Value> element is read back in its translation's language, with its translation's text. */
  lemma ValueElementReads(t: Translation, languages: seq<Language>)
    requires t.language.isoCode != "" && FindLanguage(languages, t.language.isoCode) == Some(t.language)
    ensures ValueLanguage(ValueElement(t), languages) == Some(t.language)
    ensures Value(ValueElement(t)) == t.value
  {
    assert AttributeOrEmpty(ValueElement(t), "LanguageCultureAlias") == t.language.isoCode;
    assert ValueOfAll([]) == "";
  }

  /** Sorting keeps exactly the same translations. */
  lemma SortedMembers(ts: seq<Translation>)
    ensures forall t :: t in SortBy(ts, IsoCodeOf) <==> t in ts
  {
    var us := SortBy(ts, IsoCodeOf);
    forall t ensures t in us <==> t in ts {
      assert t in us <==> t in multiset(us);
      assert t in ts <==> t in multiset(ts);
    }
  }

  /** Each written <Value> element reads back in its translation's language and text. */
  lemma ValueElementsRead(us: seq<Translation>, languages: seq<Language>)
    requires KnownLanguages(us, languages)
    ensures var vs := ValueElements(us);
            forall i :: 0 <= i < |us| ==> ValueLanguage(vs[i], languages) == Some(us[i].language) && Value(vs[i]) == us[i].value
  {
    forall i | 0 <= i < |us| ensures ValueLanguage(ValueElement(us[i]), languages) == Some(us[i].language) {
      assert us[i] in us;
      ValueElementReads(us[i], languages);
    }
    forall i | 0 <= i < |us| ensures Value(ValueElement(us[i])) == us[i].value {
      assert ValueOfAll([]) == "";
    }
  }

  /**
   * Reading back the <Value> elements written from us gives, for each
   * language, the text that ts (with the same translations) holds.
   */
  lemma LastValueIsValueOf(us: seq<Translation>, ts: seq<Translation>, languages: seq<Language>, languageId: nat)
    requires forall t :: t in us <==> t in ts
    requires KnownLanguages(ts, languages) && OneValuePerLanguage(ts)
    ensures LastValueFor(ValueElements(us), languages, languageId) == ValueOf(ts, languageId)
  {
    var vs := ValueElements(us);
    ValueElementsRead(us, languages);
    var last := LastValueFor(vs, languages, languageId);
    if last.Some? {
      var i :| 0 <= i < |vs| && ValueLanguage(vs[i], languages).Some? &&
               ValueLanguage(vs[i], languages).value.id == languageId && last.value == Value(vs[i]);
      FoundValue(ts, us[i], languageId);
    } else {
      forall k | 0 <= k < |ts| ensures ts[k].language.id != languageId {
        assert ts[k] in us;
      }
    }
  }

  /** With one value per language, a translation in the language is the one ValueOf finds. */
  lemma FoundValue(ts: seq<Translation>, t: Translation, languageId: nat)
    requires OneValuePerLanguage(ts) && t in ts && t.language.id == languageId
    ensures ValueOf(ts, languageId) == Some(t.value)
  {
    var k :| 0 <= k < |ts| && ts[k] == t;
    var v := ValueOf(ts, languageId);
    var j :| 0 <= j < |ts| && ts[j].language.id == languageId && v.value == ts[j].value;
    assert ts[j] in ts;
  }

  /**
   * Writing an item's translations as <Value> elements and applying them to
   * the same translations leaves every language's value as it was.
   */
  lemma ValuesRoundTrip(ts: seq<Translation>, languages: seq<Language>, languageId: nat)
    requires KnownLanguages(ts, languages) && OneValuePerLanguage(ts)
    ensures ValueOf(ApplyValues(ts, ValueElements(SortBy(ts, IsoCodeOf)), languages), languageId) == ValueOf(ts, languageId)
  {
    var vs := ValueElements(SortBy(ts, IsoCodeOf));
    SortedMembers(ts);
    LastValueIsValueOf(SortBy(ts, IsoCodeOf), ts, languages, languageId);
    LastValueWins(ts, vs, languages, languageId);
  }

  /** In a store with unique indexes, no other row has a stored item's ItemKey. */
  lemma OwnItemKeyNotTaken(rows: seq<Item>, item: Item)
    requires UniqueRows(rows) && item in rows
    ensures !ItemKeyTaken(rows, item.key, item.itemKey)
  {
    var k :| 0 <= k < |rows| && rows[k] == item;
    forall i | 0 <= i < |rows| && rows[i].key != item.key ensures rows[i].itemKey != item.itemKey {
      assert i != k;
    }
  }

  /**
   * An exported top element resolves to the stored item it was written
   * from: by its guid when that is not Empty, else by its ItemKey.
   */
  lemma ExportResolvesToItself(rows: seq<Item>, item: Item, pool: set<Guid>, parent: Option<Guid>, freshKey: Guid)
    requires UniqueRows(rows) && item in rows
    ensures Resolve(rows, GetDictionaryElement(rows, item, true, pool), item.itemKey, parent, freshKey) == Resolution(item, false, 0)
  {
    var e := GetDictionaryElement(rows, item, true, pool);
    ElementAttributes(rows, item, true, pool);
    assert DocumentGuid(e) == item.key;
    FindsOwnRow(rows, item);
  }

  /**
   * Importing an exported item against the store it came from finds the
   * item, saves it without error, and keeps its Key, ItemKey, parent and
   * every language's value.
   */
  lemma ExportReimports(s: Store, newGuid: nat -> Guid, item: Item, languages: seq<Language>)
    requires UniqueRows(s.rows) && item in s.rows
    requires KnownLanguages(item.translations, languages) && OneValuePerLanguage(item.translations)
    ensures var e := SerializeCore(s.rows, item).element;
            var step := SaveStep(s, newGuid, e, item.itemKey, None, languages);
            && step.saved && step.store.drawn == s.drawn
            && step.item.key == item.key && step.item.itemKey == item.itemKey && step.item.parent == item.parent
            && forall id :: ValueOf(step.item.translations, id) == ValueOf(item.translations, id)
  {
    var e := SerializeCore(s.rows, item).element;
    ExportResolvesToItself(s.rows, item, ExportPool(s.rows, item), None, newGuid(s.drawn));
    ElementParts(s.rows, item, true, ExportPool(s.rows, item));
    OwnItemKeyNotTaken(s.rows, item);
    var step := SaveStep(s, newGuid, e, item.itemKey, None, languages);
    assert step.item == item.(translations := ApplyValues(item.translations, Elements(e, "Value"), languages));
    forall id ensures ValueOf(step.item.translations, id) == ValueOf(item.translations, id) {
      ValuesRoundTrip(item.translations, languages, id);
    }
  }

  // ---------------------------------------------------------------------------
  // Change detection

  /**
   * IsUpdate: whether a document should be imported. hash is GetSyncHash
   * ("" for null or empty) and isArchive IsArchiveFile. The stored item is
   * looked up by ItemKey and compared through its exported element.
   */
  function IsUpdate(rows: seq<Item>, node: Element, hash: Element -> string, isArchive: Element -> bool): (r: bool)
    ensures isArchive(node) ==> !r
    ensures !isArchive(node) && (hash(node) == "" || "Key" !in node.attrs || !ItemKeyExists(rows, node.attrs["Key"])) ==> r
    ensures !isArchive(node) && hash(node) != "" && "Key" in node.attrs && ItemKeyExists(rows, node.attrs["Key"]) ==>
              (r <==> hash(node) != hash(SerializeCore(rows, FindByItemKey(rows, node.attrs["Key"]).value).element))
  {
    if isArchive(node) then false
    else
      var nodeHash := hash(node);
      if nodeHash == "" then true
      else
        match Attribute(node, "Key")
        case None => true
        case Some(key) =>
          match FindByItemKey(rows, key)
          case None => true
          case Some(item) =>
            var attempt := SerializeCore(rows, item);
            if !attempt.success then true
            else nodeHash != hash(attempt.element)
  }

  /** The change report: none (null), a new item, a comparison of the two elements, or an error. */
  datatype Changes = NoReport | NewItem(name: string) | Compared(node: Element, current: Element) | ChangeError(name: string)

  /**
   * GetChanges: the detailed report behind IsUpdate. It never reports an
   * error, and for a document that is not an archive it agrees with
   * IsUpdate: a comparison is an update exactly when the hashes differ.
   */
  function GetChanges(rows: seq<Item>, node: Element, hash: Element -> string): (r: Changes)
    ensures !r.ChangeError?
    ensures forall isArchive: Element -> bool {:trigger IsUpdate(rows, node, hash, isArchive)} ::
              !isArchive(node) ==>
                (r.NoReport? || r.NewItem? ==> IsUpdate(rows, node, hash, isArchive)) &&
                (r.Compared? ==> (IsUpdate(rows, node, hash, isArchive) <==> hash(node) != hash(r.current)))
    ensures r.NoReport? <==> hash(node) == "" || "Key" !in node.attrs
    ensures r.NewItem? <==> hash(node) != "" && "Key" in node.attrs && !ItemKeyExists(rows, node.attrs["Key"])
    ensures r.NewItem? ==> r.name == node.attrs["Key"]
    ensures r.Compared? <==> hash(node) != "" && "Key" in node.attrs && ItemKeyExists(rows, node.attrs["Key"])
    ensures r.Compared? ==> r.node == node
                            && r.current == SerializeCore(rows, FindByItemKey(rows, node.attrs["Key"]).value).element
  {
    var nodeHash := hash(node);
    if nodeHash == "" then NoReport
    else
      match Attribute(node, "Key")
      case None => NoReport
      case Some(key) =>
        match FindByItemKey(rows, key)
        case None => NewItem(key)
        case Some(item) =>
          var attempt := SerializeCore(rows, item);
          if attempt.success then Compared(node, attempt.element) else ChangeError(key)
  }

  /**
   * A document exported from the store is not an update against that store:
   * its Key finds the same item, which exports to the same element.
   */
  lemma ExportIsNotUpdate(rows: seq<Item>, item: Item, hash: Element -> string, isArchive: Element -> bool)
    requires UniqueRows(rows) && item in rows
    requires hash(SerializeCore(rows, item).element) != ""
    ensures !IsUpdate(rows, SerializeCore(rows, item).element, hash, isArchive)
  {
    ElementAttributes(rows, item, true, ExportPool(rows, item));
    FindsOwnRow(rows, item);
  }
}
