// The entries of a body as its reader meets them: a decompressor and a tar reader
// over the frame reader, which fetch no more of the body than they happen to.
module TarReading {
  import opened Bytes
  import opened FrameLanguage
  import opened FrameReading
  import Entries

  // What a stream that has ended amounts to: its entries, and whether they close
  // with an end-of-archive marker or break off in something unreadable.
  datatype Listing = Listing(entries: seq<Entries.Entry>, complete: bool)

  // What can be told from the beginning of a stream: the entries it holds in
  // full, and whether nothing after it is going to be looked at.
  datatype Prospect = Prospect(listing: Listing, settled: bool)

  datatype Archiver = Archiver(
    pack: seq<Entries.Entry> -> seq<bytes>,
    unpack: bytes -> Listing,
    begin: bytes -> Prospect)
  {
    // A parser goes forward: entries read off a beginning stay, whatever follows,
    // and once it has met the marker or an error nothing that follows matters.
    ghost predicate Streams() {
      forall p, q {:trigger begin(p), unpack(p + q)} ::
        && begin(p).listing.entries <= unpack(p + q).entries
        && (begin(p).settled ==> unpack(p + q) == begin(p).listing)
    }

    ghost predicate Lawful() {
      && Streams()
      && forall es {:trigger pack(es)} :: unpack(Concat(pack(es))) == Listing(es, true)
    }
  }

  datatype Next = Found(entry: Entries.Entry) | EndOfArchive | Unreadable

  class TarReader {
    const archiver: Archiver
    const body: FrameReader

    // The plaintext fetched so far, how the stream stands, and the entries handed
    // out.
    var fetched: bytes
    var ended: bool
    var failed: bool
    var count: nat

    ghost predicate Valid()
      reads this, body
    {
      && archiver.Streams() && body.Valid() && fetched == body.delivered
      && (ended ==> body.Whole() == Reading(fetched, Accepted))
      && (failed ==> body.Whole().verdict != Accepted)
      && count <= |All().entries|
    }

    // The listing of the whole plaintext the body can ever yield.
    ghost function All(): Listing {
      archiver.unpack(body.Whole().plain)
    }

    constructor (archiver: Archiver, body: FrameReader)
      requires archiver.Streams() && body.Valid() && body.delivered == []
      ensures Valid() && count == 0 && this.archiver == archiver && this.body == body
    {
      this.archiver, this.body := archiver, body;
      fetched, ended, failed, count := [], false, false, 0;
    }

    // What is known from what has been fetched agrees with the whole.
    lemma ProspectIsTrue()
      requires Valid()
      ensures fetched <= body.Whole().plain
      ensures archiver.begin(fetched).listing.entries <= All().entries
      ensures archiver.begin(fetched).settled ==> All() == archiver.begin(fetched).listing
    {
      body.DeliveredIsAPrefix();
      var q := body.Whole().plain[|fetched|..];
      assert fetched + q == body.Whole().plain;
      assert archiver.begin(fetched).listing.entries <= archiver.unpack(fetched + q).entries;
    }

    // Asks the body for up to n bytes more.
    method Fetch(n: nat)
      requires Valid()
      modifies this`fetched, this`ended, this`failed, body
      ensures Valid() && |fetched| >= old(|fetched|)
      ensures n > 0 ==> |fetched| > old(|fetched|) || ended || failed
    {
      if ended || failed { return; }
      var data, status := body.Read(n);
      fetched := fetched + data;
      ended, failed := status == EndOfStream, status.Failed?;
    }

    // What comes after the entries handed out can be told from what was fetched.
    predicate Known()
      reads this
    {
      ended || failed || archiver.begin(fetched).settled || count < |archiver.begin(fetched).listing.entries|
    }

    // Reads ahead in these buffer sizes, and then only while it must.
    method FetchEnough(sizes: seq<nat>)
      requires Valid()
      modifies this`fetched, this`ended, this`failed, body
      ensures Valid() && Known()
    {
      for i := 0 to |sizes|
        invariant Valid()
      {
        Fetch(sizes[i]);
      }
      while !Known()
        invariant Valid()
        decreases |body.Whole().plain| - |fetched|, if ended || failed then 0 else 1
      {
        Fetch(FINISH_BUFFER);
        body.DeliveredIsAPrefix();
      }
    }

    // The listing as far as it is known.
    function Seen(): Listing
      reads this
    {
      if ended then archiver.unpack(fetched) else archiver.begin(fetched).listing
    }

    lemma SeenIsEnough()
      requires Valid() && Known()
      ensures Seen().entries <= All().entries
      ensures failed || count < |Seen().entries| || Seen() == All()
    {
      ProspectIsTrue();
    }

    // The next entry. The buffer sizes are what the decompressor happens to read
    // ahead first.
    method Advance(sizes: seq<nat>) returns (next: Next)
      requires Valid()
      modifies this, body
      ensures Valid()
      ensures next.Found? ==>
        old(count) < |All().entries| && next == Found(All().entries[old(count)]) && count == old(count) + 1
      ensures body.Whole().verdict == Accepted ==>
        next == if old(count) < |All().entries| then Found(All().entries[old(count)])
                else if All().complete then EndOfArchive else Unreadable
    {
      FetchEnough(sizes);
      SeenIsEnough();
      var listing := Seen();
      if count < |listing.entries| {
        count := count + 1;
        return Found(listing.entries[count - 1]);
      }
      if failed || !listing.complete { return Unreadable; }
      return EndOfArchive;
    }
  }
}
