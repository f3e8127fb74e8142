/** The driver's word list, a doubly linked circular list with a dummy first
    cell, its iterator, and the string buffer kept in such a list. */
module WordList {

  /** A C string: no zero character inside. */
  type Word = s: string | '\0' !in s

  /** A cell; as the dummy first cell it is the list. */
  class WordList {
    var word: Word
    var next: WordList
    var prev: WordList
    var size: int
    ghost var cells: seq<WordList>    // of the dummy: the circle, from itself on

    ghost function After(i: int): int
      reads this
    {
      if i + 1 == |cells| then 0 else i + 1
    }

    ghost predicate Valid()
      reads this, cells
    {
      && |cells| > 0 && cells[0] == this && size == |cells| - 1
      && (forall i, j :: 0 <= i < j < |cells| ==> cells[i] != cells[j])
      && (forall i :: 0 <= i < |cells| ==> cells[i].next == cells[After(i)])
      && (forall i :: 0 <= i < |cells| ==> cells[After(i)].prev == cells[i])
    }

    /** The appended words, in order. */
    ghost function Words(): (r: seq<Word>)
      reads this, cells
      ensures |r| == if |cells| > 0 then |cells| - 1 else 0
      ensures forall i :: 0 <= i < |r| ==> r[i] == cells[i + 1].word
    {
      seq(if |cells| > 0 then |cells| - 1 else 0, i requires 0 <= i < |cells| - 1 reads this,
        cells => cells[i + 1].word)
    }

    constructor ()
      ensures Valid() && Words() == [] && cells == [this]
    {
      word, size := "", 0;
      next, prev := this, this;
      new;
      cells := [this];
    }

    method Append(w: Word)
      requires Valid()
      modifies this, cells
      ensures Valid() && Words() == old(Words()) + [w]
      ensures |cells| == |old(cells)| + 1 && cells[..|old(cells)|] == old(cells) && fresh(cells[|old(cells)|])
      ensures forall c :: c in cells ==> c.next.prev == c && c.prev.next == c
    {
      hide Valid;
      var cell := new WordList();
      cell.word := w;
      ghost var was := cells;
      Link(cell);
      assert forall i :: 0 <= i < |was| ==> cells[i] == was[i];
      Circle();
    }

    /** Going one way and back comes to the same cell. */
    lemma Circle()
      requires Valid()
      ensures forall c :: c in cells ==> c.next.prev == c && c.prev.next == c
    {
      forall i | 0 <= i < |cells| ensures cells[i].next.prev == cells[i] && cells[i].prev.next == cells[i] {
        assert cells[After(i)].prev == cells[i];
        var j := if i == 0 then |cells| - 1 else i - 1;
        assert After(j) == i && cells[j].next == cells[i];
      }
    }

    /** Put a new cell at the end of the circle. */
    method Link(cell: WordList)
      requires Valid() && cell !in cells
      modifies this`prev, this`next, this`size, this`cells, cells`next, cells`prev, cell`next, cell`prev
      ensures Valid() && cells == old(cells) + [cell]
    {
      ghost var last := cells[|cells| - 1];
      assert After(|cells| - 1) == 0 && prev == last;
      cell.prev := prev;
      prev.next := cell;
      cell.next := this;
      prev := cell;
      size := size + 1;
      cells := cells + [cell];
    }

    method Size() returns (n: int)
      requires Valid()
      ensures n == |Words()|
    {
      n := size;
    }

    method Empty() returns (b: bool)
      requires Valid()
      ensures b <==> Words() == []
    {
      assert next == cells[After(0)];
      b := next == this;
    }

    method First() returns (w: Word)
      requires Valid() && Words() != []
      ensures w == Words()[0]
    {
      assert next == cells[After(0)];
      w := next.word;
    }
  }

  class WordIter {
    const list: WordList
    var index: WordList
    ghost var done: nat    // words passed so far

    ghost predicate Valid()
      reads this, list, list.cells
    {
      list.Valid() && done < |list.cells| && index == list.cells[list.After(done)]
    }

    constructor (l: WordList)
      requires l.Valid()
      ensures Valid() && list == l && done == 0
    {
      list, done := l, 0;
      index := l.next;
    }

    method IsValid() returns (b: bool)
      requires Valid()
      ensures b <==> done < |list.Words()|
    {
      b := index != list;
    }

    method Next()
      requires Valid() && done < |list.Words()|
      modifies this
      ensures Valid() && done == old(done) + 1
    {
      index := index.next;
      done := done + 1;
    }

    method Element() returns (w: Word)
      requires Valid() && done < |list.Words()|
      ensures w == list.Words()[done]
    {
      w := index.word;
    }
  }

  // ----- the buffer -----

  function Concat(ws: seq<Word>): Word {
    if ws == [] then "" else Concat(ws[..|ws| - 1]) + ws[|ws| - 1]
  }

  lemma ConcatNone(ws: seq<Word>)
    ensures Concat(ws[..0]) == ""
  {
  }

  lemma ConcatNext(ws: seq<Word>, k: nat)
    requires k < |ws|
    ensures Concat(ws[..k + 1]) == Concat(ws[..k]) + ws[k]
  {
    assert ws[..k + 1][..k] == ws[..k];
  }

  lemma {:induction false} ConcatFits(ws: seq<Word>, k: nat)
    requires k <= |ws|
    ensures |Concat(ws[..k])| <= |Concat(ws)|
    decreases |ws| - k
  {
    if k < |ws| {
      ConcatNext(ws, k);
      ConcatFits(ws, k + 1);
    } else {
      assert ws[..k] == ws;
    }
  }

  /** strcpy: the word and a zero character, into str from at on. */
  method StrCpy(str: array<char>, at: nat, w: Word)
    requires at + |w| < str.Length
    modifies str
    ensures str[..at + |w|] == old(str[..at]) + w && str[at + |w|] == '\0'
  {
    forall k | 0 <= k < |w| { str[at + k] := w[k]; }
    str[at + |w|] := '\0';
    assert str[..at + |w|] == str[..at] + str[at..at + |w|];
  }

  class Buffer {
    const list: WordList

    ghost predicate Valid()
      reads list, list.cells
    {
      list.Valid()
    }

    ghost function Contents(): Word
      requires Valid()
      reads list, list.cells
    {
      Concat(list.Words())
    }

    constructor ()
      ensures Valid() && Contents() == "" && fresh(list) && fresh(list.cells)
    {
      list := new WordList();
    }

    method Append(w: Word)
      requires Valid()
      modifies list, list.cells
      ensures Valid() && Contents() == old(Contents()) + w
      ensures forall c :: c in list.cells ==> c in old(list.cells) || fresh(c)
    {
      ghost var ws := list.Words();
      list.Append(w);
      assert list.Words()[..|ws|] == ws;
    }

    /** The first pass: the length of all words together. */
    method Length() returns (length: nat)
      requires Valid()
      ensures length == |Contents()|
    {
      hide WordList.Valid, WordIter.Valid, WordList.Words, Concat;
      ghost var ws := list.Words();
      ConcatNone(ws);
      length := 0;
      var i := new WordIter(list);
      var more := i.IsValid();
      while more
        invariant i.Valid() && i.list == list && fresh(i) && i.done <= |ws| && (more <==> i.done < |ws|)
        invariant length == |Concat(ws[..i.done])|
        decreases |ws| - i.done
      {
        ConcatNext(ws, i.done);
        var w := i.Element();
        length := length + |w|;
        i.Next();
        more := i.IsValid();
      }
      assert ws[..i.done] == ws;
    }

    /** A new character array holding exactly the contents and a final zero. */
    method Extract() returns (str: array<char>)
      requires Valid()
      ensures fresh(str) && str.Length == |Contents()| + 1
      ensures str[..str.Length - 1] == Contents() && str[str.Length - 1] == '\0'
    {
      hide WordList.Valid, WordIter.Valid, WordList.Words, Concat;
      ghost var ws := list.Words();
      ConcatNone(ws);
      var length := Length();
      str := new char[length + 1];
      var index := 0;
      var i := new WordIter(list);
      var more := i.IsValid();
      while more
        invariant i.Valid() && i.list == list && fresh(i) && i.done <= |ws| && (more <==> i.done < |ws|)
        invariant index == |Concat(ws[..i.done])| <= length && str[..index] == Concat(ws[..i.done])
        decreases |ws| - i.done
      {
        index := PutWord(str, index, i, ws);
        i.Next();
        more := i.IsValid();
      }
      assert ws[..i.done] == ws;
      str[index] := '\0';
    }

    /** The body of the second pass. */
    method PutWord(str: array<char>, at: nat, i: WordIter, ghost ws: seq<Word>) returns (end: nat)
      requires i.Valid() && i.list == list && ws == list.Words() && i.done < |ws| && str.Length == |Concat(ws)| + 1
      requires at == |Concat(ws[..i.done])| < str.Length && str[..at] == Concat(ws[..i.done])
      modifies str
      ensures end == |Concat(ws[..i.done + 1])| < str.Length && str[..end] == Concat(ws[..i.done + 1])
    {
      hide WordList.Valid, WordIter.Valid, WordList.Words, Concat;
      ConcatNext(ws, i.done);
      ConcatFits(ws, i.done + 1);
      var w := i.Element();
      StrCpy(str, at, w);
      end := at + |w|;
    }
  }

  /** A new buffer of equal contents; it shares no cell with the original, so
      no later append to either changes the other. */
  method Copy(orig: Buffer) returns (buffer: Buffer)
    requires orig.Valid()
    ensures buffer.Valid() && buffer.Contents() == orig.Contents()
    ensures fresh(buffer.list) && fresh(set c | c in buffer.list.cells)
  {
    buffer := new Buffer();
    var contents := orig.Extract();
    buffer.Append(contents[..contents.Length - 1]);
  }
}
