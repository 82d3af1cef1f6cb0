/** The text-field edits of InputDialog: a NUL-terminated line of
    characters in a fixed buffer, edited at a cursor.

    The cursor is Pos, its column in a window of LineSize + 1 columns, and
    LineShift, the number of characters scrolled off to the left; the
    character under it is the one at Pos + LineShift. The buffer is the
    item's SValue grown to SVALUE_MAX_SIZE bytes, which is buffer.Length
    two-byte characters. */
module LineEdit {
  import opened Efi

  /** The width of the edit window. */
  const LineSize: nat := 48

  datatype Cursor = Cursor(pos: nat, lineShift: nat)

  /** The index in the text of the character under the cursor. */
  function At(c: Cursor): nat { c.pos + c.lineShift }

  /** The cursor lies inside the window and at most one past the end of a
      text of len characters. */
  predicate InText(c: Cursor, len: nat) {
    c.pos <= LineSize && At(c) <= len
  }

  /** The text of a buffer: the characters before its first NUL. */
  function Text(b: seq<char>): seq<char>
    requires TextEnd(b) <= |b|
  {
    b[..TextEnd(b)]
  }

  // ---------------------------------------------------------------------
  // Cursor moves

  /** SCAN_RIGHT: one character right while not at the end, scrolling the
      window once the cursor is at its right edge. */
  function Right(c: Cursor, len: nat): Cursor {
    if At(c) < len then
      if c.pos < LineSize then Cursor(c.pos + 1, c.lineShift) else Cursor(c.pos, c.lineShift + 1)
    else c
  }

  /** SCAN_LEFT: one character left, scrolling the window back once the
      cursor is at its left edge. */
  function Left(c: Cursor): Cursor {
    if c.pos > 0 then Cursor(c.pos - 1, c.lineShift)
    else if c.lineShift > 0 then Cursor(c.pos, c.lineShift - 1)
    else c
  }

  /** SCAN_HOME. */
  function Home(): Cursor { Cursor(0, 0) }

  /** SCAN_END as written: a text shorter than the window puts the cursor at
      column len and keeps LineShift. */
  function EndAsWritten(c: Cursor, len: nat): Cursor {
    if len < LineSize then Cursor(len, c.lineShift) else Cursor(LineSize, len - LineSize)
  }

  /** SCAN_END corrected: a text shorter than the window is shown from its
      start. */
  function End(len: nat): Cursor {
    if len < LineSize then Cursor(len, 0) else Cursor(LineSize, len - LineSize)
  }

  /** The cursor after CHAR_BACKSPACE: the window scrolls back if it can,
      otherwise the cursor moves left. */
  function AfterBackspace(c: Cursor): Cursor
    requires c.pos != 0
  {
    if c.lineShift > 0 then Cursor(c.pos, c.lineShift - 1) else Cursor(c.pos - 1, c.lineShift)
  }

  /** The cursor after a typed character: it moves right, or the window
      scrolls once the cursor is at its right edge. */
  function AfterInsert(c: Cursor): Cursor {
    if c.pos < LineSize then Cursor(c.pos + 1, c.lineShift) else Cursor(c.pos, c.lineShift + 1)
  }

  /** Every corrected cursor move keeps the cursor in the text: RIGHT and
      LEFT step one character unless at an end, HOME goes to the first
      character and END one past the last. */
  lemma CursorStaysInText(c: Cursor, len: nat)
    requires InText(c, len)
    ensures InText(Right(c, len), len) && At(Right(c, len)) == if At(c) < len then At(c) + 1 else At(c)
    ensures InText(Left(c), len) && At(Left(c)) == if At(c) > 0 then At(c) - 1 else 0
    ensures InText(Home(), len) && At(Home()) == 0
    ensures InText(End(len), len) && At(End(len)) == len
  {
  }

  /** Backspace and a typed character move the cursor by one character and
      keep it in the text of the new length. */
  lemma EditsStayInText(c: Cursor, len: nat)
    requires InText(c, len)
    ensures c.pos != 0 ==> InText(AfterBackspace(c), len - 1) && At(AfterBackspace(c)) == At(c) - 1
    ensures InText(AfterInsert(c), len + 1) && At(AfterInsert(c)) == At(c) + 1
  {
  }

  /** As written, END leaves the cursor past the end of a short text when the
      window was scrolled: with LineShift 1 over a ten-character text the
      cursor goes to column 10, character 11. */
  lemma EndAsWrittenLeavesText()
    ensures InText(Cursor(5, 1), 10)
    ensures EndAsWritten(Cursor(5, 1), 10) == Cursor(10, 1) && !InText(EndAsWritten(Cursor(5, 1), 10), 10)
  {
  }

  // ---------------------------------------------------------------------
  // Buffer edits

  /** Characters k + 1 .. n shift one place left over character k; the NUL
      at n stays, so n - 1 and n both hold NUL afterwards. */
  function RemoveAt(b: seq<char>, k: nat, n: nat): (r: seq<char>)
    requires k < n < |b|
    ensures |r| == |b|
    ensures forall i :: 0 <= i < |r| ==> r[i] == if k <= i < n then b[i + 1] else b[i]
  {
    b[..k] + b[k + 1..n + 1] + b[n..]
  }

  /** Characters k .. n (the text from k and its NUL) shift one place right
      and c goes to k. */
  function InsertAt(b: seq<char>, k: nat, c: char, n: nat): (r: seq<char>)
    requires k <= n && n + 2 <= |b|
    ensures |r| == |b|
    ensures forall i :: 0 <= i < |r| ==> r[i] == if i == k then c else if k < i <= n + 1 then b[i - 1] else b[i]
  {
    b[..k] + [c] + b[k..n + 1] + b[n + 2..]
  }

  /** A NUL at n with none before it ends the text there. */
  lemma TextEndIs(b: seq<char>, n: nat)
    requires n < |b| && b[n] == '\0'
    requires forall i :: 0 <= i < n ==> b[i] != '\0'
    ensures TextEnd(b) == n
  {
  }

  /** Removing a character of the text shortens the text by exactly that
      character and keeps it NUL-terminated; nothing past the old NUL
      changes. */
  lemma RemoveAtText(b: seq<char>, k: nat)
    requires k < TextEnd(b) < |b|
    ensures var r := RemoveAt(b, k, TextEnd(b));
      && TextEnd(r) == TextEnd(b) - 1 < |r|
      && Text(r) == Text(b)[..k] + Text(b)[k + 1..]
      && r[TextEnd(b)..] == b[TextEnd(b)..]
  {
    var n, r := TextEnd(b), RemoveAt(b, k, TextEnd(b));
    assert r[n - 1] == '\0';
    forall i | 0 <= i < n - 1
      ensures r[i] != '\0'
    {
      if i >= k {
        assert r[i] == b[i + 1];
      }
    }
    TextEndIs(r, n - 1);
    assert Text(r) == Text(b)[..k] + Text(b)[k + 1..] by {
      forall i | 0 <= i < n - 1
        ensures Text(r)[i] == (Text(b)[..k] + Text(b)[k + 1..])[i]
      {
        if i >= k {
          assert r[i] == b[i + 1];
        }
      }
    }
  }

  /** Inserting a character that is not NUL into the text lengthens the text
      by exactly that character and keeps it NUL-terminated; nothing past
      the new NUL changes. */
  lemma InsertAtText(b: seq<char>, k: nat, c: char)
    requires k <= TextEnd(b) && TextEnd(b) + 2 <= |b| && c != '\0'
    ensures var r := InsertAt(b, k, c, TextEnd(b));
      && TextEnd(r) == TextEnd(b) + 1 < |r|
      && Text(r) == Text(b)[..k] + [c] + Text(b)[k..]
      && r[TextEnd(b) + 2..] == b[TextEnd(b) + 2..]
  {
    var n, r := TextEnd(b), InsertAt(b, k, c, TextEnd(b));
    assert r[n + 1] == b[n] == '\0';
    forall i | 0 <= i < n + 1
      ensures r[i] != '\0'
    {
      if i > k {
        assert r[i] == b[i - 1];
      }
    }
    TextEndIs(r, n + 1);
    assert Text(r) == Text(b)[..k] + [c] + Text(b)[k..] by {
      forall i | 0 <= i < n + 1
        ensures Text(r)[i] == (Text(b)[..k] + [c] + Text(b)[k..])[i]
      {
        if i > k {
          assert r[i] == b[i - 1];
        }
      }
    }
  }

  /** Typing a character and then deleting it with backspace gives back the
      text: the character typed at k is the one before the cursor after it,
      at k. (By EditsStayInText the cursor returns to the same character.) */
  lemma InsertThenRemove(b: seq<char>, k: nat, c: char)
    requires k <= TextEnd(b) && TextEnd(b) + 2 <= |b| && c != '\0'
    ensures var b' := InsertAt(b, k, c, TextEnd(b));
      && k < TextEnd(b') < |b'|
      && Text(RemoveAt(b', k, TextEnd(b'))) == Text(b)
  {
    var t := Text(b);
    var b' := InsertAt(b, k, c, TextEnd(b));
    InsertAtText(b, k, c);
    RemoveAtText(b', k);
    var t' := t[..k] + [c] + t[k..];
    assert t'[..k] == t[..k] && t'[k + 1..] == t[k..];
    assert t == t[..k] + t[k..];
  }

  // ---------------------------------------------------------------------
  // The edit field

  /** The text field being edited: Item->SValue, the local Pos and
      Item->LineShift. */
  class TextField {
    const buffer: array<char>
    var pos: nat
    var lineShift: nat

    function Cur(): Cursor
      reads this
    {
      Cursor(pos, lineShift)
    }

    /** The buffer holds a NUL and the cursor is in the text. */
    predicate Valid()
      reads this, buffer
    {
      TextEnd(buffer[..]) < buffer.Length && InText(Cur(), TextEnd(buffer[..]))
    }

    /** StrLen (Buffer). */
    method StrLen() returns (n: nat)
      requires TextEnd(buffer[..]) < buffer.Length
      ensures n == TextEnd(buffer[..])
    {
      n := 0;
      while buffer[n] != '\0'
        invariant n <= TextEnd(buffer[..])
        decreases TextEnd(buffer[..]) - n
      {
        n := n + 1;
      }
    }

    /** SCAN_RIGHT. */
    method MoveRight()
      requires Valid()
      modifies this
      ensures Valid() && Cur() == Right(old(Cur()), TextEnd(buffer[..]))
    {
      var len := StrLen();
      if pos + lineShift < len {
        if pos < LineSize {
          pos := pos + 1;
        } else {
          lineShift := lineShift + 1;
        }
      }
    }

    /** SCAN_LEFT. */
    method MoveLeft()
      requires Valid()
      modifies this
      ensures Valid() && Cur() == Left(old(Cur()))
    {
      if pos > 0 {
        pos := pos - 1;
      } else if lineShift > 0 {
        lineShift := lineShift - 1;
      }
    }

    /** SCAN_HOME. */
    method MoveHome()
      requires Valid()
      modifies this
      ensures Valid() && Cur() == Home()
    {
      pos := 0;
      lineShift := 0;
    }

    /** SCAN_END, resetting LineShift for a text shorter than the window. */
    method MoveEnd()
      requires Valid()
      modifies this
      ensures Valid() && Cur() == End(TextEnd(buffer[..]))
    {
      var len := StrLen();
      if len < LineSize {
        pos := len;
        lineShift := 0;
      } else {
        pos := LineSize;
        lineShift := len - LineSize;
      }
    }

    /** SCAN_DELETE: the character under the cursor is removed when there is
      one. */
    method ForwardDelete()
      requires Valid()
      modifies buffer
      ensures Valid()
      ensures var k, n := At(Cur()), old(TextEnd(buffer[..]));
        buffer[..] == if k < n then RemoveAt(old(buffer[..]), k, n) else old(buffer[..])
    {
      ghost var b := buffer[..];
      var len := StrLen();
      var newPos := pos + lineShift;
      if newPos < len {
        ShiftDown(newPos, len);
        RemoveAtText(b, newPos);
      }
    }

    /** CHAR_BACKSPACE: when the text is not empty and the cursor is not in
      the first column, the character before the cursor is removed and the
      cursor steps back. */
    method Backspace()
      requires Valid()
      modifies this, buffer
      ensures Valid()
      ensures var k, n := At(old(Cur())), old(TextEnd(buffer[..]));
        if old(buffer[0]) != '\0' && old(pos) != 0
        then buffer[..] == RemoveAt(old(buffer[..]), k - 1, n) && Cur() == AfterBackspace(old(Cur()))
        else buffer[..] == old(buffer[..]) && Cur() == old(Cur())
    {
      ghost var b := buffer[..];
      if buffer[0] != '\0' && pos != 0 {
        var len := StrLen();
        var newPos := pos + lineShift;
        ShiftDown(newPos - 1, len);
        RemoveAtText(b, newPos - 1);
        EditsStayInText(Cur(), len);
        if lineShift > 0 {
          lineShift := lineShift - 1;
        } else {
          pos := pos - 1;
        }
      }
    }

    /** A typed character: a printable ASCII character is inserted at the
      cursor while the text and its NUL fit in SVALUE_MAX_SIZE bytes with
      room to spare, and the cursor moves past it. */
    method Insert(ch: char)
      requires Valid()
      modifies this, buffer
      ensures Valid()
      ensures var k, n := At(old(Cur())), old(TextEnd(buffer[..]));
        if 0x20 as char <= ch < 0x80 as char && n + 2 <= buffer.Length
        then buffer[..] == InsertAt(old(buffer[..]), k, ch, n) && Cur() == AfterInsert(old(Cur()))
        else buffer[..] == old(buffer[..]) && Cur() == old(Cur())
    {
      ghost var b := buffer[..];
      if 0x20 as char <= ch < 0x80 as char {
        var strLen := StrLen();
        if 2 * (strLen + 1) < 2 * buffer.Length {
          var newPos := pos + lineShift;
          ShiftUp(newPos, strLen, ch);
          InsertAtText(b, newPos, ch);
          EditsStayInText(Cur(), strLen);
          if pos < LineSize {
            pos := pos + 1;
          } else {
            lineShift := lineShift + 1;
          }
        }
      }
    }

    /** The copy loop of forward delete and backspace: characters k + 1 .. n
      move one place down over character k. */
    method ShiftDown(k: nat, n: nat)
      requires k < n < buffer.Length
      modifies buffer
      ensures buffer[..] == RemoveAt(old(buffer[..]), k, n)
    {
      var i := k;
      while i < n
        invariant k <= i <= n
        invariant forall j :: 0 <= j < buffer.Length ==> buffer[j] == if k <= j < i then old(buffer[j + 1]) else old(buffer[j])
      {
        buffer[i] := buffer[i + 1];
        i := i + 1;
      }
      assert buffer[..] == RemoveAt(old(buffer[..]), k, n) by {
        forall j | 0 <= j < buffer.Length
          ensures buffer[j] == RemoveAt(old(buffer[..]), k, n)[j]
        {
        }
      }
    }

    /** The copy loop of insert and the store after it: characters k .. n
      move one place up and ch goes to k. */
    method ShiftUp(k: nat, n: nat, ch: char)
      requires k <= n && n + 2 <= buffer.Length
      modifies buffer
      ensures buffer[..] == InsertAt(old(buffer[..]), k, ch, n)
    {
      var i := n + 1;
      while i > k
        invariant k <= i <= n + 1
        invariant forall j :: 0 <= j < buffer.Length ==> buffer[j] == if i < j <= n + 1 then old(buffer[j - 1]) else old(buffer[j])
      {
        buffer[i] := buffer[i - 1];
        i := i - 1;
      }
      buffer[i] := ch;
      assert buffer[..] == InsertAt(old(buffer[..]), k, ch, n) by {
        forall j | 0 <= j < buffer.Length
          ensures buffer[j] == InsertAt(old(buffer[..]), k, ch, n)[j]
        {
        }
      }
    }
  }
}
