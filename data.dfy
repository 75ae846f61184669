/** The payload of an internal node: a key and its list of records. */
module DataEntries {
  import opened MultimediaItems

  /** The java.util.ArrayList<MultimediaItem> a Data object owns. It is a
      separate heap object because Data hands it out by reference and
      callers append to it directly. */
  class MediaList {
    var items: seq<MultimediaItem>

    constructor ()
      ensures items == []
    {
      items := [];
    }

    /** ArrayList.add: append at the end; the earlier items keep their order */
    method Add(item: MultimediaItem)
      modifies this
      ensures items == old(items) + [item]
    {
      items := items + [item];
    }
  }

  /** A key with an append-only list of items. Both fields are set once by
      the constructor: the name has no setter and the list object is never
      replaced, only appended to. */
  class Data {
    const name: string
    const media: MediaList

    /** A new entry with the given key and no items */
    constructor (newName: string)
      ensures name == newName
      ensures fresh(media) && media.items == []
    {
      name := newName;
      media := new MediaList();
    }

    /** Appends `newItem` to this entry's list; the name, a constant, is untouched */
    method Add(newItem: MultimediaItem)
      modifies media
      ensures media.items == old(media.items) + [newItem]
    {
      media.Add(newItem);
    }

    /** The key of this entry */
    function GetName(): string
    {
      name
    }

    /** The live item list (not a copy): appends through it are seen by
        every later call */
    function GetMedia(): MediaList
    {
      media
    }
  }
}
