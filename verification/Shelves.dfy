/** What a client makes of its row: one book per line read, with at most 1023 bytes per line. */
module Shelves {
  import opened CStrings
  import opened WireFormat
  import opened Index

  const NEWLINE: byte := 10

  /** The most that one `fgets` into a buffer of 1024 returns. */
  const LINE_LIMIT: nat := 1023

  /** The contents of a shelf file; its lines are counted in an `int`. */
  type Text = s: seq<byte> | NUL !in s && |s| < 0x8000_0000

  datatype Shelf = Shelf(number: int32, text: Text)

  /** How much the next `fgets` takes: through the newline, but never more than its limit. */
  function LineLength(text: seq<byte>, limit: nat): (length: nat)
    ensures length <= limit && length <= |text|
    ensures text != [] && limit > 0 ==> length > 0
    ensures NEWLINE !in text[..length] ==> length == |text| || length == limit
    ensures NEWLINE in text[..length] ==> text[length - 1] == NEWLINE && NEWLINE !in text[..length - 1]
  {
    if text == [] || limit == 0 then 0
    else if text[0] == NEWLINE then 1
    else
      var rest := LineLength(text[1..], limit - 1);
      assert text[..rest + 1] == [text[0]] + text[1..][..rest];
      assert rest > 0 ==> text[..rest] == [text[0]] + text[1..][..rest - 1];
      rest + 1
  }

  /** The line without its newline, if it ends in one. */
  function Chomp(line: CString): (name: CString)
    requires line != []
    ensures |name| <= |line|
  {
    if line[|line| - 1] == NEWLINE then line[..|line| - 1] else line
  }

  lemma ChompTakesNewlineOnly(line: CString)
    requires line != []
    ensures line == Chomp(line) + [10] || (line == Chomp(line) && line[|line| - 1] != 10)
  {}

  function ShelfBooks(row: int32, shelf: int32, position: nat, text: Text): (books: seq<Book>)
    requires position + |text| < 0x8000_0000
    ensures |books| <= |text|
    decreases |text|
  {
    if text == [] then [] else
      var length := LineLength(text, LINE_LIMIT);
      [Book(row, shelf, position as int32, Chomp(text[..length]))]
      + ShelfBooks(row, shelf, position + 1, text[length..])
  }

  function Flatten(lines: seq<seq<byte>>): seq<byte> {
    if lines == [] then [] else lines[0] + Flatten(lines[1..])
  }

  /** What the successive `fgets` calls return until the end of the file. */
  function Lines(text: Text): (lines: seq<CString>)
    ensures |lines| <= |text|
    ensures forall i :: 0 <= i < |lines| ==> lines[i] != []
    decreases |text|
  {
    if text == [] then [] else
      var length := LineLength(text, LINE_LIMIT);
      [text[..length]] + Lines(text[length..])
  }

  lemma {:induction false} PieceLength(text: seq<byte>, i: nat, limit: nat)
    requires i <= |text| && NEWLINE !in text[..i] && i <= limit
    requires i == limit || i == |text| || text[i] == NEWLINE
    ensures LineLength(text, limit) == if i < limit && i < |text| then i + 1 else i
    decreases i
  {
    if i > 0 {
      assert text[0] == text[..i][0];
      assert text[1..][..i - 1] == text[..i][1..];
      PieceLength(text[1..], i - 1, limit - 1);
    }
  }

  /** The first piece of a text, if `line` is all that comes before its newline or the limit. */
  lemma FirstPiece(line: CString, text: Text, length: nat)
    requires text != [] && length <= |text| && LineLength(text, LINE_LIMIT) == length && text[..length] == line
    ensures Lines(text) == [line] + Lines(text[length..])
  {
    hide LineLength;
  }

  lemma PartsOfText(line: CString, rest: CString)
    ensures
      var text := line + [10] + rest;
      && text[..|line|] == line && text[|line|] == NEWLINE
      && text[..|line| + 1] == line + [10] && text[|line| + 1..] == rest
  {}

  /** A line of at most 1022 bytes is read with its newline; what follows is read as if it stood alone. */
  lemma ShortLineIsOnePiece(line: CString, rest: CString)
    requires 10 !in line && |line| <= 1022 && |line| + 1 + |rest| < 0x8000_0000
    ensures Lines(line + [10] + rest) == [line + [10]] + Lines(rest)
  {
    hide LineLength, Lines;
    var text: Text := line + [10] + rest;
    PartsOfText(line, rest);
    PieceLength(text, |line|, LINE_LIMIT);
    FirstPiece(line + [10], text, |line| + 1);
  }

  /** A longer one is cut after 1023 bytes. */
  lemma LongLineIsCut(piece: CString, rest: CString)
    requires 10 !in piece && |piece| == 1023 && |piece| + |rest| < 0x8000_0000
    ensures Lines(piece + rest) == [piece] + Lines(rest)
  {
    hide LineLength, Lines;
    var text: Text := piece + rest;
    assert text[..|piece|] == piece && text[|piece|..] == rest;
    PieceLength(text, 1023, LINE_LIMIT);
    FirstPiece(piece, text, 1023);
  }

  /** The last line may lack its newline. */
  lemma LastLineIsOnePiece(line: CString)
    requires 10 !in line && 0 < |line| <= 1023
    ensures Lines(line) == [line]
  {
    hide LineLength;
    var text: Text := line;
    assert text[..|line|] == line && text[|line|..] == [];
    PieceLength(text, |line|, LINE_LIMIT);
    FirstPiece(line, text, |line|);
  }

  lemma {:induction false} LinesMakeTheText(text: Text)
    ensures Flatten(Lines(text)) == text
    decreases |text|
  {
    hide LineLength;
    if text != [] {
      var length := LineLength(text, LINE_LIMIT);
      LinesMakeTheText(text[length..]);
      assert text == text[..length] + text[length..];
    }
  }

  /** Each line makes one book, in order. */
  lemma {:induction false} LineMakesBook(row: int32, shelf: int32, position: nat, text: Text, i: nat)
    requires position + |text| < 0x8000_0000 && i < |Lines(text)|
    ensures |ShelfBooks(row, shelf, position, text)| == |Lines(text)|
    ensures
      ShelfBooks(row, shelf, position, text)[i]
      == Book(row, shelf, (position + i) as int32, Chomp(Lines(text)[i]))
    decreases |text|
  {
    hide LineLength, Chomp;
    var length := LineLength(text, LINE_LIMIT);
    if Lines(text[length..]) != [] {
      LineMakesBook(row, shelf, position + 1, text[length..], if i == 0 then 0 else i - 1);
    } else {
      NoLinesNoText(text[length..]);
    }
  }

  lemma NoLinesNoText(text: Text)
    requires Lines(text) == []
    ensures text == []
  {}

  function RowBooks(row: int32, shelves: seq<Shelf>): seq<Book> {
    if shelves == [] then []
    else ShelfBooks(row, shelves[0].number, 0, shelves[0].text) + RowBooks(row, shelves[1..])
  }

  /** The books of a row are those of its shelves, in the order of the shelves, each numbered from 0. */
  lemma {:induction false} ShelvesInOrder(row: int32, before: seq<Shelf>, shelf: Shelf, behind: seq<Shelf>)
    ensures RowBooks(row, before + [shelf] + behind)
         == RowBooks(row, before) + ShelfBooks(row, shelf.number, 0, shelf.text) + RowBooks(row, behind)
    decreases |before|
  {
    hide ShelfBooks;
    var shelves := before + [shelf] + behind;
    if before == [] {
      assert shelves[0] == shelf && shelves[1..] == behind;
    } else {
      ShelvesInOrder(row, before[1..], shelf, behind);
      assert shelves[0] == before[0] && shelves[1..] == before[1..] + [shelf] + behind;
    }
  }

  /** Consecutive positions of one shelf, with bounded names. */
  ghost predicate OneShelf(books: seq<Book>, row: int32, shelf: int32, position: nat) {
    forall i :: 0 <= i < |books| ==>
      && |books[i].name| <= LINE_LIMIT
      && books[i].n == row && books[i].m == shelf && books[i].k as int == position + i
  }

  lemma {:induction false} ShelfBooksAreOneShelf(row: int32, shelf: int32, position: nat, text: Text)
    requires position + |text| < 0x8000_0000
    ensures OneShelf(ShelfBooks(row, shelf, position, text), row, shelf, position)
    decreases |text|
  {
    hide LineLength, Chomp;
    if text != [] {
      var rest := ShelfBooks(row, shelf, position + 1, text[LineLength(text, LINE_LIMIT)..]);
      ShelfBooksAreOneShelf(row, shelf, position + 1, text[LineLength(text, LINE_LIMIT)..]);
      var books := ShelfBooks(row, shelf, position, text);
      forall i | 1 <= i < |books|
        ensures books[i] == rest[i - 1]
      {}
    }
  }

  ghost predicate DistinctNumbers(shelves: seq<Shelf>) {
    forall i, j :: 0 <= i < j < |shelves| ==> shelves[i].number != shelves[j].number
  }

  /** Every book of a row carries the row, a shelf number of the row and a bounded name. */
  lemma {:induction false} RowBooksAre(row: int32, shelves: seq<Shelf>)
    ensures forall b :: b in RowBooks(row, shelves) ==>
      && |b.name| <= LINE_LIMIT && b.n == row
      && exists s :: s in shelves && s.number == b.m
  {
    if shelves != [] {
      var first := ShelfBooks(row, shelves[0].number, 0, shelves[0].text);
      ShelfBooksAreOneShelf(row, shelves[0].number, 0, shelves[0].text);
      RowBooksAre(row, shelves[1..]);
      hide ShelfBooks;
      assert shelves[0] in shelves;
    }
  }

  /** With distinct shelf numbers no key is used twice, so no book of the row hides another. */
  lemma {:induction false} RowKeysAreDistinct(row: int32, shelves: seq<Shelf>)
    requires DistinctNumbers(shelves)
    ensures DistinctKeys(RowBooks(row, shelves))
  {
    if shelves != [] {
      var first := ShelfBooks(row, shelves[0].number, 0, shelves[0].text);
      var rest := RowBooks(row, shelves[1..]);
      ShelfBooksAreOneShelf(row, shelves[0].number, 0, shelves[0].text);
      RowBooksAre(row, shelves[1..]);
      hide ShelfBooks;
      RowKeysAreDistinct(row, shelves[1..]);
      forall i, j | 0 <= i < j < |first + rest|
        ensures KeyOf((first + rest)[i]) != KeyOf((first + rest)[j])
      {
        if j >= |first| {
          assert rest[j - |first|] in rest;
        }
      }
    }
  }

  // The largest snapshots that clients can cause.

  /** `lines` full buffers of one letter, without a newline. */
  function FullLines(lines: nat): (text: seq<byte>)
    ensures |text| == LINE_LIMIT * lines && forall b :: b in text ==> b == 97
  {
    seq(LINE_LIMIT * lines, _ => 97)
  }

  lemma NoNewlineTakesAll(text: seq<byte>, limit: nat)
    requires NEWLINE !in text && limit <= |text|
    ensures LineLength(text, limit) == limit
  {}

  lemma {:induction false} FullLinesMakeFullBooks(position: nat, lines: nat)
    requires position + LINE_LIMIT * lines < 0x8000_0000
    ensures
      var books := ShelfBooks(0, 0, position, FullLines(lines));
      |books| == lines && forall b :: b in books ==> b.name == FullLines(1)
    decreases lines
  {
    var text := FullLines(lines);
    if lines > 0 {
      assert NEWLINE !in text;
      NoNewlineTakesAll(text, LINE_LIMIT);
      assert text[LINE_LIMIT..] == FullLines(lines - 1);
      assert text[..LINE_LIMIT] == FullLines(1);
      FullLinesMakeFullBooks(position + 1, lines - 1);
    }
  }

  lemma {:induction false} ExactSize(books: seq<Book>, length: nat)
    requires forall b :: b in books ==> |b.name| == length
    ensures |EncodeBooks(books)| == |books| * (13 + length)
  {
    hide EncodeBook;
    if books != [] {
      ExactSize(books[1..], length);
      assert books[0] in books;
      assert |books| * (13 + length) == (|books| - 1) * (13 + length) + (13 + length);
    }
  }
}
