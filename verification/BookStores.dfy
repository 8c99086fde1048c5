/** The shared table of books and its per-symbol index. */
module BookStores {
  import opened Collections
  import opened Books

  type Key = (string, string)

  /** The books of `symbol` among `keys`, by scanning every entry: what the index stands for. */
  ghost function ScanForSymbol(keys: seq<Key>, books: map<Key, OrderBook>, symbol: string): seq<OrderBook> {
    if keys == [] then []
    else
      var last := keys[|keys| - 1];
      ScanForSymbol(keys[..|keys| - 1], books, symbol)
          + (if last.1 == symbol && last in books then [books[last]] else [])
  }

  /** Entries added elsewhere do not change a scan. */
  lemma {:induction false} ScanSame(keys: seq<Key>, books: map<Key, OrderBook>, more: map<Key, OrderBook>,
                                    symbol: string)
    requires forall k | k in keys :: k in books && k in more && books[k] == more[k]
    ensures ScanForSymbol(keys, books, symbol) == ScanForSymbol(keys, more, symbol)
  {
    if keys != [] {
      ScanSame(keys[..|keys| - 1], books, more, symbol);
    }
  }

  lemma ScanPut(before: Dict<Key, OrderBook>, key: Key, book: OrderBook, symbol: string)
    requires before.Valid() && key !in before.entries
    ensures var after := before.Put(key, book);
            ScanForSymbol(after.keys, after.entries, symbol)
            == ScanForSymbol(before.keys, before.entries, symbol) + (if key.1 == symbol then [book] else [])
  {
    var after := before.Put(key, book);
    assert after.keys[..|after.keys| - 1] == before.keys;
    ScanSame(before.keys, before.entries, after.entries, symbol);
  }

  /** A scan lists each book of the symbol exactly once, by venue. */
  lemma {:induction false} ScanExact(keys: seq<Key>, books: map<Key, OrderBook>, symbol: string)
    requires Distinct(keys) && forall k | k in keys :: k in books && books[k].venueId == k.0 && books[k].symbol == k.1
    ensures var found := ScanForSymbol(keys, books, symbol);
            && (forall b | b in found :: (b.venueId, symbol) in keys && books[(b.venueId, symbol)] == b)
            && (forall k | k in keys && k.1 == symbol :: books[k] in found)
            && (forall i, j | 0 <= i < j < |found| :: found[i].venueId != found[j].venueId)
  {
    if keys != [] {
      var init, last := keys[..|keys| - 1], keys[|keys| - 1];
      assert keys == init + [last];
      ScanExact(init, books, symbol);
      var before := ScanForSymbol(init, books, symbol);
      forall i | 0 <= i < |before| && last.1 == symbol ensures before[i].venueId != last.0 {
        assert before[i] in before;
        assert (before[i].venueId, symbol) in init;
      }
    }
  }

  class BookStore {
    var books: Dict<Key, OrderBook>
    var bySymbol: map<string, seq<OrderBook>>

    /** The index holds, for every symbol, what a scan of the whole table would. */
    ghost predicate Valid()
      reads this
    {
      && books.Valid()
      && (forall k | k in books.entries :: books.entries[k].venueId == k.0 && books.entries[k].symbol == k.1)
      && forall s: string :: Indexed(s) == ScanForSymbol(books.keys, books.entries, s)
    }

    function Indexed(symbol: string): seq<OrderBook>
      reads this
    {
      if symbol in bySymbol then bySymbol[symbol] else []
    }

    constructor ()
      ensures Valid() && books == Dict([], map[])
    {
      books, bySymbol := Dict([], map[]), map[];
    }

    method GetOrCreate(venueId: string, symbol: string) returns (book: OrderBook)
      requires Valid()
      modifies this
      ensures Valid() && book.venueId == venueId && book.symbol == symbol
      ensures if (venueId, symbol) in old(books.entries)
              then books == old(books) && bySymbol == old(bySymbol) && book == books.entries[(venueId, symbol)]
              else fresh(book) && books == old(books).Put((venueId, symbol), book)
    {
      var key := (venueId, symbol);
      hide Dict.Valid, ScanForSymbol;
      if key in books.entries {
        return books.entries[key];
      }
      book := new OrderBook(venueId, symbol);
      ghost var before := books;
      books := books.Put(key, book);
      bySymbol := bySymbol[symbol := (if symbol in bySymbol then bySymbol[symbol] else []) + [book]];
      forall s: string ensures Indexed(s) == ScanForSymbol(books.keys, books.entries, s) {
        ScanPut(before, key, book, s);
      }
    }

    /** Every book of the symbol, exactly once. */
    method AllForSymbol(symbol: string) returns (r: seq<OrderBook>)
      requires Valid()
      ensures forall b | b in r :: (b.venueId, symbol) in books.entries && books.entries[(b.venueId, symbol)] == b
      ensures forall k | k in books.entries && k.1 == symbol :: books.entries[k] in r
      ensures forall i, j | 0 <= i < j < |r| :: r[i].venueId != r[j].venueId
    {
      ScanExact(books.keys, books.entries, symbol);
      r := if symbol in bySymbol then bySymbol[symbol] else [];
      assert r == Indexed(symbol);
    }
  }
}
