/** Pages of a remote directory listing (apps/worker/src/durable/ssh-session.ts). */
module DirectoryPages {
  import opened Common

  const MAX_ENTRIES := 500
  const MAX_BYTES := 48 * 1024

  function Total(entries: seq<string>, size: string -> nat): nat {
    if entries == [] then 0 else Total(entries[..|entries| - 1], size) + size(entries[|entries| - 1])
  }

  /** A page within the limits; a single entry may be larger than the byte limit. */
  ghost predicate Fits(page: seq<string>, size: string -> nat) {
    |page| <= MAX_ENTRIES && (|page| <= 1 || Total(page, size) <= MAX_BYTES)
  }

  /** `createDirectoryPage`; `size` is the length of an encoded entry.  The page is the longest stretch
      from `offset` on that fits. */
  method CreateDirectoryPage(entries: seq<string>, offset: nat, size: string -> nat) returns (page: seq<string>)
    requires offset <= |entries|
    ensures offset + |page| <= |entries| && page == entries[offset..offset + |page|]
    ensures Fits(page, size)
    ensures offset + |page| < |entries| ==> !Fits(entries[offset..offset + |page| + 1], size)
    ensures offset < |entries| ==> page != []
  {
    page := [];
    var encodedBytes := 0;
    var index := offset;
    while index < |entries| && |page| < MAX_ENTRIES
      invariant offset <= index <= |entries| && page == entries[offset..index]
      invariant encodedBytes == Total(page, size) && Fits(page, size)
      invariant index > offset ==> page != []
    {
      var entry := entries[index];
      var longer := entries[offset..index + 1];
      assert longer == page + [entry] && longer[..|longer| - 1] == page;
      if |page| > 0 && encodedBytes + size(entry) > MAX_BYTES { break; }
      page := page + [entry];
      encodedBytes := encodedBytes + size(entry);
      index := index + 1;
    }
  }

  /** The client's requests for page after page collect the whole listing, each entry once. */
  method CollectListing(entries: seq<string>, size: string -> nat) returns (listed: seq<string>)
    ensures listed == entries
  {
    listed := [];
    var cursor := 0;
    while cursor < |entries|
      invariant cursor <= |entries| && listed == entries[..cursor]
      decreases |entries| - cursor
    {
      var page := CreateDirectoryPage(entries, cursor, size);
      listed := listed + page;
      cursor := cursor + |page|;
    }
  }
}
