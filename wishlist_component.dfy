/**
 * The wishlist component as a stateful object: the collection, the two text
 * inputs, and the browser storage it persists to. Each method is one event or
 * effect; a method that calls setWishlists also runs the save effect that the
 * new state triggers.
 */
module WishlistComponent {
  import opened Wrappers
  import opened JsStrings
  import opened Wishlist

  class ChristmasWishlist {
    /** The collection on screen. */
    var wishlists: Wishlists
    /** The "add person" input. */
    var currentPerson: string
    /** The "add item" input. */
    var currentItem: string
    /** The browser's local storage. */
    var storage: Storage
    /** The JSON library. */
    const json: Json
    /** Whether a setItem of the given key and text succeeds against the storage's quota. */
    const fits: (Storage, string, string) -> bool

    /** The first render: an empty collection and empty inputs over whatever the browser has stored. */
    constructor (storage: Storage, json: Json, fits: (Storage, string, string) -> bool)
      ensures this.wishlists == map[] && this.currentPerson == "" && this.currentItem == ""
      ensures this.storage == storage && this.json == json && this.fits == fits
    {
      this.wishlists := map[];
      this.currentPerson := "";
      this.currentItem := "";
      this.storage := storage;
      this.json := json;
      this.fits := fits;
    }

    /** The save effect for a rendered collection: one serialization, written to the primary and then the backup slot. */
    method Persist(rendered: Wishlists)
      modifies this`storage
      ensures storage == SavedStorage(old(storage), json.stringify(rendered), fits)
    {
      var text := json.stringify(rendered);
      if fits(storage, PrimaryKey, text) {
        storage := storage[PrimaryKey := text];
        if fits(storage, BackupKey, text) {
          storage := storage[BackupKey := text];
        }
      }
    }

    /** setWishlists: the new collection is rendered and the save effect writes it. */
    method SetWishlists(next: Wishlists)
      modifies this`wishlists, this`storage
      ensures wishlists == next
      ensures storage == SavedStorage(old(storage), json.stringify(next), fits)
    {
      wishlists := next;
      Persist(wishlists);
    }

    /**
     * The load effect: the primary slot if it holds text that parses; else the
     * backup slot if the primary held unparsable text and the backup parses;
     * else nothing changes. `loaded` says whether setWishlists was called.
     */
    method Load() returns (loaded: bool)
      modifies this`wishlists
      ensures loaded <==> LoadedSnapshot(storage, json.parse).Some?
      ensures wishlists == if loaded then LoadedSnapshot(storage, json.parse).value else old(wishlists)
    {
      loaded := false;
      var saved := GetItem(storage, PrimaryKey);
      var backup := GetItem(storage, BackupKey);
      if Truthy(saved) {
        var parsed := json.parse(saved.value);
        if parsed.Some? {
          wishlists, loaded := parsed.value, true;
        } else if Truthy(backup) {
          var parsedBackup := json.parse(backup.value);
          if parsedBackup.Some? {
            wishlists, loaded := parsedBackup.value, true;
          }
        }
      }
    }

    /**
     * The first client render: the load effect runs, then the save effect of the
     * same commit, which still sees the collection rendered before the load; a
     * collection that was loaded is rendered next and saved again.
     */
    method Mount()
      modifies this`wishlists, this`storage
      ensures var snapshot := LoadedSnapshot(old(storage), json.parse);
        var first := SavedStorage(old(storage), json.stringify(old(wishlists)), fits);
        && wishlists == (if snapshot.Some? then snapshot.value else old(wishlists))
        && storage == (if snapshot.Some? then SavedStorage(first, json.stringify(snapshot.value), fits) else first)
    {
      var rendered := wishlists;
      var loaded := Load();
      Persist(rendered);
      if loaded {
        Persist(wishlists);
      }
    }

    /** importWishlists: a chosen file whose text parses replaces the whole collection, which is then saved. */
    method Import(file: Option<string>)
      modifies this`wishlists, this`storage
      ensures wishlists == Imported(old(wishlists), file, json.parse)
      ensures storage == if file.Some? && json.parse(file.value).Some?
        then SavedStorage(old(storage), json.stringify(wishlists), fits) else old(storage)
    {
      if file.Some? {
        var importedData := json.parse(file.value);
        if importedData.Some? {
          SetWishlists(importedData.value);
        }
      }
    }

    /** addPerson: a new entry for the typed name, after which the input is cleared; a rejected name leaves everything as it was. */
    method AddPerson()
      modifies this`wishlists, this`storage, this`currentPerson
      ensures wishlists == Wishlist.AddPerson(old(wishlists), old(currentPerson))
      ensures AcceptsPerson(old(wishlists), old(currentPerson)) ==>
        currentPerson == "" && storage == SavedStorage(old(storage), json.stringify(wishlists), fits)
      ensures !AcceptsPerson(old(wishlists), old(currentPerson)) ==>
        currentPerson == old(currentPerson) && storage == old(storage)
    {
      if !AcceptsPerson(wishlists, currentPerson) {
        return;
      }
      SetWishlists(Wishlist.AddPerson(wishlists, currentPerson));
      currentPerson := "";
    }

    /** addItem: the typed wish, trimmed, joins the person's list and the input is cleared; blank input changes nothing. */
    method AddItem(person: string)
      modifies this`wishlists, this`storage, this`currentItem
      ensures wishlists == Wishlist.AddItem(old(wishlists), person, old(currentItem))
      ensures !IsBlank(old(currentItem)) ==>
        currentItem == "" && storage == SavedStorage(old(storage), json.stringify(wishlists), fits)
      ensures IsBlank(old(currentItem)) ==>
        currentItem == old(currentItem) && storage == old(storage)
    {
      if IsBlank(currentItem) {
        return;
      }
      SetWishlists(Wishlist.AddItem(wishlists, person, currentItem));
      currentItem := "";
    }

    /** removeItem: the wish at `index` leaves the list of a person on screen, and the result is saved. */
    method RemoveItem(person: string, index: int)
      requires person in wishlists
      modifies this`wishlists, this`storage
      ensures wishlists == Wishlist.RemoveItem(old(wishlists), person, index)
      ensures storage == SavedStorage(old(storage), json.stringify(wishlists), fits)
    {
      SetWishlists(Wishlist.RemoveItem(wishlists, person, index));
    }

    /** removePerson: the person and their wishes are deleted, and the result is saved. */
    method RemovePerson(person: string)
      modifies this`wishlists, this`storage
      ensures wishlists == Wishlist.RemovePerson(old(wishlists), person)
      ensures storage == SavedStorage(old(storage), json.stringify(wishlists), fits)
    {
      SetWishlists(Wishlist.RemovePerson(wishlists, person));
    }
  }
}
