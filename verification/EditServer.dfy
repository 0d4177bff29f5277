/** assignments/hw2/server.c: a string edited in a fixed buffer, with the three last states kept in
    three more. The buffers refine a string and a bounded history of strings. */
module EditServer {
  import opened Common

  const STRING_LIMIT: nat := 76
  const UNDO_LIMIT: nat := 3

  // ----- what the server is for -----

  /** The text and, newest first, the texts that undo can bring back. */
  datatype Document = Document(text: string, history: seq<string>)

  datatype Request = Request(command: char, index: nat, character: char)

  datatype Status = OK | ERROR | REPORT

  function Newest(history: seq<string>): (r: seq<string>)
    ensures |r| == if |history| <= UNDO_LIMIT then |history| else UNDO_LIMIT
    ensures forall i | 0 <= i < |r| :: r[i] == history[i]
  {
    if |history| <= UNDO_LIMIT then history else history[..UNDO_LIMIT]
  }

  function Edited(d: Document, text: string): Document
  {
    Document(text, Newest([d.text] + d.history))
  }

  function StatusOf(d: Document, r: Request): Status
  {
    if r.command == 'i' || r.command == 'd' then (if r.index > |d.text| then ERROR else OK)
    else if r.command == 'u' then (if d.history == [] then ERROR else OK)
    else if r.command == 'r' then REPORT
    else OK
  }

  /** A deletion just behind the last character is accepted, and changes nothing but the history. */
  function Apply(d: Document, r: Request): Document
  {
    if StatusOf(d, r) == ERROR then d
    else if r.command == 'i' then Edited(d, d.text[..r.index] + [r.character] + d.text[r.index..])
    else if r.command == 'd' then
      Edited(d, Cut(d.text, r.index))
    else if r.command == 'u' then Document(d.history[0], d.history[1..])
    else d
  }

  /** What an insertion needs: a character that is no terminator, and room for one more. */
  predicate Roomy(t: string, c: char)
  {
    c != '\0' && |t| < STRING_LIMIT - 1
  }

  predicate FairEdit(d: Document, r: Request)
  {
    r.command == 'i' && r.index <= |d.text| ==> Roomy(d.text, r.character)
  }

  /** What the server asks of its clients: roomy insertions, and reports only of texts that leave room for
      a number and a terminator. */
  predicate Fair(d: Document, r: Request)
  {
    FairEdit(d, r) && (r.command == 'r' ==> |d.text| <= STRING_LIMIT - 5)
  }

  /** What %d prints. */
  function Decimal(n: nat): string
  {
    (if n < 10 then [] else Decimal(n / 10)) + ["0123456789"[n % 10]]
  }

  /** What a reader of decimal digits makes of them. */
  function ReadDecimal(digits: string): nat
  {
    if digits == [] then 0
    else
      var c := digits[|digits| - 1] as int;
      10 * ReadDecimal(digits[..|digits| - 1]) + if '0' as int <= c <= '9' as int then c - '0' as int else 0
  }

  /** The number is read back, from digits alone and without leading zeros. */
  lemma {:induction false} DecimalReadsBack(n: nat)
    ensures ReadDecimal(Decimal(n)) == n && Decimal(n) != []
    ensures forall i | 0 <= i < |Decimal(n)| :: '0' <= Decimal(n)[i] <= '9'
    ensures n > 0 ==> Decimal(n)[0] != '0'
  {
    var digits := Decimal(n);
    if n >= 10 {
      DecimalReadsBack(n / 10);
      assert digits[..|digits| - 1] == Decimal(n / 10);
    } else {
      assert digits[..|digits| - 1] == [];
    }
  }

  /** What a report says. */
  function Report(d: Document): string
  {
    d.text + " [" + Decimal(|d.history|) + "]"
  }

  lemma OneDigit(n: nat)
    requires n < 10
    ensures |Decimal(n)| == 1 && '\0' !in Decimal(n)
  {
  }

  /** A report is the text, and the number of undos in brackets behind it. */
  lemma ReportIs(d: Document)
    ensures var m := Report(d);
      && |m| > |d.text| + 3 && m[..|d.text|] == d.text
      && m[|d.text|..|d.text| + 2] == " [" && m[|m| - 1] == ']'
      && ReadDecimal(m[|d.text| + 2..|m| - 1]) == |d.history|
  {
    DecimalReadsBack(|d.history|);
    var m := Report(d);
    assert m[|d.text| + 2..|m| - 1] == Decimal(|d.history|);
  }

  /** The message sent back. */
  function Message(d: Document, r: Request): string
  {
    match StatusOf(d, r)
    case OK => "OK"
    case ERROR => "ERROR"
    case REPORT => Report(d)
  }

  /** What each request is answered. */
  lemma MessageIs(d: Document, r: Request)
    ensures Message(d, r) ==
      if (r.command in "id" && r.index > |d.text|) || (r.command == 'u' && d.history == []) then "ERROR"
      else if r.command == 'r' then Report(d)
      else "OK"
  {
  }

  // ----- undo -----

  predicate IsEdit(d: Document, r: Request)
  {
    (r.command == 'i' || r.command == 'd') && r.index <= |d.text|
  }

  /** An accepted insertion: the character is at its place, what was before it is before it, and what was
      behind is one place further on. */
  lemma InsertionIs(d: Document, r: Request)
    requires r.command == 'i' && r.index <= |d.text|
    ensures var t := Apply(d, r).text;
      && StatusOf(d, r) == OK && |t| == |d.text| + 1 && t[r.index] == r.character
      && (forall j | 0 <= j < r.index :: t[j] == d.text[j])
      && (forall j | r.index <= j < |d.text| :: t[j + 1] == d.text[j])
  {
  }

  /** An accepted deletion: the character is gone, and what was behind it is one place nearer; just behind
      the text there is nothing to delete. */
  lemma DeletionIs(d: Document, r: Request)
    requires r.command == 'd' && r.index <= |d.text|
    ensures var t := Apply(d, r).text;
      && StatusOf(d, r) == OK
      && (r.index == |d.text| ==> t == d.text)
      && (r.index < |d.text| ==>
            && |t| == |d.text| - 1
            && (forall j | 0 <= j < r.index :: t[j] == d.text[j])
            && (forall j | r.index <= j < |t| :: t[j] == d.text[j + 1]))
  {
  }

  /** Whatever is not an accepted edit or undo leaves text and history as they are. */
  lemma RefusedKeeps(d: Document, r: Request)
    ensures StatusOf(d, r) == ERROR <==>
              ((r.command == 'i' || r.command == 'd') && r.index > |d.text|) || (r.command == 'u' && d.history == [])
    ensures StatusOf(d, r) == REPORT <==> r.command == 'r'
    ensures StatusOf(d, r) == ERROR || r.command !in "idu" ==> Apply(d, r) == d
  {
  }

  /** A run of accepted edits. */
  ghost predicate Edits(d: Document, rs: seq<Request>)
  {
    rs == [] || (Edits(d, rs[..|rs| - 1]) && IsEdit(After(d, rs[..|rs| - 1]), rs[|rs| - 1]))
  }

  function After(d: Document, rs: seq<Request>): Document
  {
    if rs == [] then d else Apply(After(d, rs[..|rs| - 1]), rs[|rs| - 1])
  }

  lemma AfterNone(d: Document, rs: seq<Request>)
    ensures After(d, rs[..0]) == d
  {
  }

  lemma AfterNext(d: Document, rs: seq<Request>, n: nat)
    requires n < |rs|
    ensures After(d, rs[..n + 1]) == Apply(After(d, rs[..n]), rs[n])
  {
    assert rs[..n + 1][..n] == rs[..n];
  }

  function Undo(): Request { Request('u', 0, ' ') }

  function Undone(d: Document, k: nat): Document
  {
    if k == 0 then d else Apply(Undone(d, k - 1), Undo())
  }

  lemma EditKeeps(d: Document, r: Request)
    requires IsEdit(d, r)
    ensures var h := Apply(d, r).history;
      && |h| >= 1 && h[0] == d.text && |h| >= (if |d.history| < UNDO_LIMIT then |d.history| + 1 else UNDO_LIMIT)
      && forall j | 0 < j < |h| && j - 1 < |d.history| :: h[j] == d.history[j - 1]
  {
  }

  lemma {:induction false} HistoryIsThePast(d: Document, rs: seq<Request>, j: nat)
    requires Edits(d, rs) && j < |rs| && j < UNDO_LIMIT
    ensures var h := After(d, rs).history;
      j < |h| && h[j] == After(d, rs[..|rs| - 1 - j]).text
  {
    hide Apply, Newest, IsEdit;
    var before := rs[..|rs| - 1];
    EditKeeps(After(d, before), rs[|rs| - 1]);
    if j > 0 {
      HistoryIsThePast(d, before, j - 1);
      assert before[..|before| - j] == rs[..|rs| - 1 - j];
    }
  }

  lemma {:induction false} UndoneText(d: Document, k: nat)
    requires 1 <= k <= |d.history|
    ensures Undone(d, k) == Document(d.history[k - 1], d.history[k..])
  {
    if k > 1 {
      UndoneText(d, k - 1);
    }
  }

  /** After any run of accepted edits, k undos bring back the text of k edits ago, for k up to three. */
  lemma UndoGoesBack(d: Document, rs: seq<Request>, k: nat)
    requires Edits(d, rs) && k <= |rs| && k <= UNDO_LIMIT
    ensures Undone(After(d, rs), k).text == After(d, rs[..|rs| - k]).text
  {
    if k == 0 {
      assert rs[..|rs|] == rs;
    } else {
      HistoryIsThePast(d, rs, k - 1);
      UndoneText(After(d, rs), k);
    }
  }

  /** A fourth undo in a row is refused and changes nothing. */
  lemma UndoIsBounded(d: Document)
    requires |d.history| <= UNDO_LIMIT
    ensures StatusOf(Undone(d, |d.history|), Undo()) == ERROR
    ensures Apply(Undone(d, |d.history|), Undo()) == Undone(d, |d.history|)
  {
    if d.history != [] { UndoneText(d, |d.history|); }
  }

  // ----- strings in buffers -----

  /** A buffer that holds t and nothing but zeros behind it. */
  ghost function Padded(t: string): seq<char>
    requires |t| <= STRING_LIMIT
  {
    t + seq(STRING_LIMIT - |t|, _ => '\0')
  }

  lemma PaddedText(t: string)
    requires |t| < STRING_LIMIT && '\0' !in t
    ensures '\0' in Padded(t) && CString(Padded(t), '\0') == t
  {
    assert Padded(t)[..|t|] == t;
    CStringIs(Padded(t), '\0', |t|);
  }

  lemma TextPadded(t: string)
    requires |t| < STRING_LIMIT
    ensures |Padded(t)| == STRING_LIMIT && forall i | |t| <= i < STRING_LIMIT :: Padded(t)[i] == '\0'
  {
  }

  lemma BufferPadded(t: string, buffer: seq<char>)
    requires |t| < STRING_LIMIT == |buffer|
    requires forall i | 0 <= i < STRING_LIMIT :: buffer[i] == if i < |t| then t[i] else '\0'
    ensures buffer == Padded(t)
  {
  }

  /** strcpy of s over a padded text that is at most one character longer. */
  lemma OverPadded(t: string, s: string, buffer: seq<char>)
    requires |s| < STRING_LIMIT && |t| <= |s| + 1 && |t| < STRING_LIMIT && |buffer| == STRING_LIMIT
    requires '\0' in buffer && CString(buffer, '\0') == s
    requires forall i | |s| < i < STRING_LIMIT :: buffer[i] == Padded(t)[i]
    ensures buffer == Padded(s)
  {
    hide CString;
    assert buffer[..|s|] == s && buffer[|s|] == '\0';
  }

  method StrLen(a: array<char>) returns (n: nat)
    requires '\0' in a[..]
    ensures n == |CString(a[..], '\0')|
  {
    n := 0;
    while a[n] != '\0'
      invariant n <= |CString(a[..], '\0')|
      decreases a.Length - n
    {
      n := n + 1;
    }
    CStringIs(a[..], '\0', n);
  }

  method StrChr(a: array<char>, c: char) returns (found: bool)
    requires '\0' in a[..] && c != '\0'
    ensures found <==> c in CString(a[..], '\0')
  {
    hide CString;
    ghost var t := CString(a[..], '\0');
    var i := 0;
    while a[i] != '\0'
      invariant 0 <= i <= |t| && c !in t[..i]
      decreases a.Length - i
    {
      assert i < |t| && t[i] == a[..][i] && t[..i + 1] == t[..i] + [t[i]];
      if a[i] == c {
        return true;
      }
      i := i + 1;
    }
    assert i == |t| by { CStringIs(a[..], '\0', i); }
    assert t[..i] == t;
    return false;
  }

  /** Copies up to and with the terminator and leaves the rest of the target as it was. */
  method StrCpy(to: array<char>, from: array<char>)
    requires to != from && to.Length == from.Length && '\0' in from[..]
    modifies to
    ensures '\0' in to[..] && CString(to[..], '\0') == CString(from[..], '\0')
    ensures forall i | |CString(from[..], '\0')| < i < to.Length :: to[i] == old(to[i])
  {
    ghost var n := |CString(from[..], '\0')|;
    var i := 0;
    while from[i] != '\0'
      invariant 0 <= i <= n
      invariant to[..i] == from[..i]
      invariant forall j | i <= j < to.Length :: to[j] == old(to[j])
      decreases n - i
    {
      to[i] := from[i];
      i := i + 1;
    }
    to[i] := '\0';
    CStringIs(from[..], '\0', i);
    assert to[..][..i] == from[..][..i];
    CStringIs(to[..], '\0', i);
  }

  /** snprintf of the formatted s with a limit of size bytes: says whether all it wrote was inside of the
      target. */
  method SnPrintf(to: array<char>, size: nat, s: string) returns (inside: bool)
    requires size > 0
    modifies to
    ensures var n := if |s| < size then |s| else size - 1;
      && (inside <==> n + 1 <= to.Length)
      && (inside ==> to[..n] == s[..n] && to[n] == '\0' && forall i | n < i < to.Length :: to[i] == old(to[i]))
  {
    var n := if |s| < size then |s| else size - 1;
    var i := 0;
    while i < n
      invariant 0 <= i <= n && i <= to.Length
      invariant to[..i] == s[..i]
      invariant forall j | i <= j < to.Length :: to[j] == old(to[j])
    {
      if i >= to.Length {
        return false;
      }
      to[i] := s[i];
      i := i + 1;
    }
    if n >= to.Length {
      return false;
    }
    to[n] := '\0';
    return true;
  }

  /** strncpy: the string, cut or padded to n bytes. */
  method StrNCpy(to: array<char>, from: seq<char>, n: nat)
    requires n <= to.Length && '\0' in from
    modifies to
    ensures forall i | 0 <= i < n :: to[i] == if i < |CString(from, '\0')| then from[i] else '\0'
    ensures forall i | n <= i < to.Length :: to[i] == old(to[i])
  {
    hide CString;
    ghost var t := CString(from, '\0');
    var ended := false;
    for i := 0 to n
      invariant ended <==> i > |t|
      invariant forall k | 0 <= k < i :: to[k] == if k < |t| then from[k] else '\0'
      invariant forall k | i <= k < to.Length :: to[k] == old(to[k])
    {
      if i < |t| { assert t[i] == from[i]; }
      if !ended && from[i] == '\0' {
        ended := true;
      }
      to[i] := if ended then '\0' else from[i];
    }
  }

  // ----- the server -----

  /** Shifts what lies from index on up by one and puts c there: the loop of an insertion. */
  method ShiftUp(a: array<char>, len: nat, index: nat, c: char)
    requires index <= len < a.Length && forall i | len <= i < a.Length :: a[i] == '\0'
    modifies a
    ensures a[..] == old(a[..index] + [c] + a[index..a.Length - 1])
  {
    ghost var was := a[..];
    var i := len;
    while i > index
      invariant index <= i <= len
      invariant forall j | 0 <= j <= i :: a[j] == was[j]
      invariant forall j | i < j <= len :: a[j] == was[j - 1]
      invariant forall j | len < j < a.Length :: a[j] == '\0'
    {
      a[i] := a[i - 1];
      i := i - 1;
    }
    a[index] := c;
  }

  /** Shifts what lies behind index down by one: the loop of a deletion. */
  method ShiftDown(a: array<char>, index: nat)
    requires index < a.Length
    modifies a
    ensures a[..] == old(a[..index] + a[index + 1..] + [a[a.Length - 1]])
  {
    ghost var was := a[..];
    var i := index;
    while i < a.Length - 1
      invariant index <= i <= a.Length - 1
      invariant forall j | 0 <= j < index :: a[j] == was[j]
      invariant forall j | index <= j < i :: a[j] == was[j + 1]
      invariant forall j | i <= j < a.Length :: a[j] == was[j]
    {
      a[i] := a[i + 1];
      i := i + 1;
    }
  }

  lemma InsertedPadded(t: string, index: nat, c: char)
    requires index <= |t| < STRING_LIMIT
    ensures Padded(t)[..index] + [c] + Padded(t)[index..STRING_LIMIT - 1] == Padded(t[..index] + [c] + t[index..])
  {
  }

  /** A buffer that has lost its last byte to an insertion holds the longer text if and only if the
      insertion was roomy; otherwise it holds no string, or the text up to the inserted terminator. */
  lemma InsertedText(t: string, index: nat, c: char)
    requires index <= |t| < STRING_LIMIT && '\0' !in t
    ensures var buffer := Padded(t)[..index] + [c] + Padded(t)[index..STRING_LIMIT - 1];
      && ('\0' in buffer <==> c == '\0' || |t| < STRING_LIMIT - 1)
      && (Roomy(t, c) <==> '\0' in buffer && CString(buffer, '\0') == t[..index] + [c] + t[index..])
  {
    InsertedPadded(t, index, c);
    var longer := t[..index] + [c] + t[index..];
    if |t| < STRING_LIMIT - 1 {
      assert Padded(longer)[STRING_LIMIT - 1] == '\0';
      if c != '\0' { PaddedText(longer); }
    } else {
      assert Padded(longer) == longer;
    }
    if c == '\0' { assert longer[index] == c; }
  }

  /** The loop of an insertion on a padded buffer, a full one included: it leaves the longer text if and
      only if the insertion is roomy. */
  method InsertInto(t: string, index: nat, c: char) returns (a: array<char>)
    requires index <= |t| < STRING_LIMIT && '\0' !in t
    ensures '\0' in a[..] <==> c == '\0' || |t| < STRING_LIMIT - 1
    ensures Roomy(t, c) <==> '\0' in a[..] && CString(a[..], '\0') == t[..index] + [c] + t[index..]
  {
    a := new char[STRING_LIMIT](i => if 0 <= i < |t| then t[i] else '\0');
    BufferPadded(t, a[..]);
    ShiftUp(a, |t|, index, c);
    InsertedText(t, index, c);
  }

  function Cut(t: string, index: nat): (next: string)
    requires index <= |t|
    ensures |next| <= |t|
  {
    t[..index] + if index < |t| then t[index + 1..] else []
  }

  lemma DeletedPadded(t: string, index: nat)
    requires index <= |t| < STRING_LIMIT
    ensures Padded(t)[..index] + Padded(t)[index + 1..] + [Padded(t)[STRING_LIMIT - 1]] == Padded(Cut(t, index))
  {
  }

  lemma DeletedText(t: string, index: nat, buffer: seq<char>)
    requires index <= |t| < STRING_LIMIT && '\0' !in t
    requires buffer == Padded(t)[..index] + Padded(t)[index + 1..] + [Padded(t)[STRING_LIMIT - 1]]
    ensures '\0' in buffer && CString(buffer, '\0') == Cut(t, index) && buffer == Padded(Cut(t, index))
  {
    hide Padded, CString;
    DeletedPadded(t, index);
    assert '\0' !in Cut(t, index);
    PaddedText(Cut(t, index));
  }

  /** No text is more than one character longer than the one before it. */
  ghost predicate Neighbours(d: Document)
  {
    && (d.history != [] ==> |d.text| <= |d.history[0]| + 1)
    && (forall i, j | 0 <= i < j < |d.history| && j <= i + 1 :: |d.history[i]| <= |d.history[j]| + 1)
  }

  /** What a text, three snapshots and a count of undos amount to: a snapshot counts if it can be undone to. */
  ghost function DocumentOf(text: string, s1: string, s2: string, s3: string, undos: nat): Document
  {
    Document(text, if undos < UNDO_LIMIT then [s1, s2, s3][..undos] else [s1, s2, s3])
  }

  lemma SnapshotTaken(text: string, s1: string, s2: string, s3: string, undos: nat, next: string)
    requires undos <= UNDO_LIMIT && |next| <= |text| + 1
    ensures var d := DocumentOf(text, s1, s2, s3, undos);
      && DocumentOf(next, text, s1, s2, undos + 1) == Edited(d, next)
      && (Neighbours(d) ==> Neighbours(Edited(d, next)))
  {
  }

  lemma SnapshotUsed(text: string, s1: string, s2: string, s3: string, undos: nat)
    requires 0 < undos <= UNDO_LIMIT
    ensures var d := DocumentOf(text, s1, s2, s3, undos);
      && d.history != [] && d.history[0] == s1
      && DocumentOf(s1, s2, s3, s3, undos - 1) == Document(d.history[0], d.history[1..])
      && (Neighbours(d) ==> |text| <= |s1| + 1 && Neighbours(Document(d.history[0], d.history[1..])))
  {
  }

  lemma DocumentClamped(text: string, s1: string, s2: string, s3: string, undos: nat)
    ensures DocumentOf(text, s1, s2, s3, undos) ==
            DocumentOf(text, s1, s2, s3, if undos > UNDO_LIMIT then UNDO_LIMIT else undos)
    ensures DocumentOf(text, s1, s2, s3, undos).text == text
    ensures |DocumentOf(text, s1, s2, s3, undos).history| == if undos > UNDO_LIMIT then UNDO_LIMIT else undos
  {
  }

  lemma NothingToUndo(text: string, s1: string, s2: string, s3: string)
    ensures DocumentOf(text, s1, s2, s3, 0) == Document(text, []) && Neighbours(Document(text, []))
  {
  }

  class Server {
    const text: array<char>
    const prev1: array<char>
    const prev2: array<char>
    const prev3: array<char>
    const message: array<char>  // of the response
    var len: nat
    var numUndos: nat

    ghost predicate Terminated()
      reads this, text, prev1, prev2, prev3
    {
      && text.Length == prev1.Length == prev2.Length == prev3.Length == STRING_LIMIT
      && text != prev1 && text != prev2 && text != prev3 && prev1 != prev2 && prev1 != prev3 && prev2 != prev3
      && message.Length == STRING_LIMIT
      && message != text && message != prev1 && message != prev2 && message != prev3
      && '\0' in text[..] && '\0' in prev1[..] && '\0' in prev2[..] && '\0' in prev3[..]
    }

    /** The buffers as a document. */
    ghost function View(): Document
      reads this, text, prev1, prev2, prev3
      requires Terminated()
    {
      DocumentOf(CString(text[..], '\0'), CString(prev1[..], '\0'),
                 CString(prev2[..], '\0'), CString(prev3[..], '\0'), numUndos)
    }

    /** Behind the text its buffer holds nothing but zeros: an insertion writes no terminator. */
    ghost predicate Valid()
      reads this, text, prev1, prev2, prev3
    {
      Terminated() && Neighbours(View()) && text[..] == Padded(CString(text[..], '\0'))
    }

    /** The server starts with its argument, cut to size; what the three snapshot buffers hold on the
        stack is arbitrary but for a terminator. */
    constructor (arg: string, prev1: array<char>, prev2: array<char>, prev3: array<char>)
      requires prev1.Length == prev2.Length == prev3.Length == STRING_LIMIT
      requires prev1 != prev2 && prev1 != prev3 && prev2 != prev3
      requires '\0' in prev1[..] && '\0' in prev2[..] && '\0' in prev3[..] && '\0' !in arg
      ensures Valid() && fresh(text) && fresh(message)
              && this.prev1 == prev1 && this.prev2 == prev2 && this.prev3 == prev3
      ensures View() == Document(if |arg| < STRING_LIMIT then arg else arg[..STRING_LIMIT - 1], [])
    {
      hide CString, DocumentOf, Padded, Neighbours;
      ghost var t := if |arg| < STRING_LIMIT then arg else arg[..STRING_LIMIT - 1];
      var buffer := new char[STRING_LIMIT](i => if 0 <= i < STRING_LIMIT - 1 && i < |arg| then arg[i] else '\0');
      text := buffer;
      message := new char[STRING_LIMIT];
      this.prev1, this.prev2, this.prev3 := prev1, prev2, prev3;
      len, numUndos := |arg|, 0;
      BufferPadded(t, buffer[..]);
      PaddedText(t);
      NothingToUndo(CString(buffer[..], '\0'), CString(prev1[..], '\0'),
                    CString(prev2[..], '\0'), CString(prev3[..], '\0'));
    }

    /** Moves the snapshots up and takes one of the text. */
    method Snapshot()
      requires Terminated()
      modifies prev1, prev2, prev3
      ensures Terminated()
      ensures CString(prev1[..], '\0') == old(CString(text[..], '\0'))
      ensures CString(prev2[..], '\0') == old(CString(prev1[..], '\0'))
              && CString(prev3[..], '\0') == old(CString(prev2[..], '\0'))
    {
      StrCpy(prev3, prev2);
      StrCpy(prev2, prev1);
      StrCpy(prev1, text);
    }

    /** A roomy insertion refines the edit; after any other the buffer does not hold the edited text. */
    method Insert(index: nat, c: char)
      requires Valid() && numUndos <= UNDO_LIMIT
      requires index <= len == |View().text|
      modifies this`numUndos, text, prev1, prev2, prev3
      ensures var t := old(View().text);
        var next := t[..index] + [c] + t[index..];
        && (Roomy(t, c) ==> Valid() && View() == Edited(old(View()), next))
        && (!Roomy(t, c) ==> !('\0' in text[..] && CString(text[..], '\0') == next))
    {
      hide CString, Padded, DocumentOf, Edited, Neighbours;
      ghost var (t, s1, s2, s3) :=
        (CString(text[..], '\0'), CString(prev1[..], '\0'), CString(prev2[..], '\0'), CString(prev3[..], '\0'));
      DocumentClamped(t, s1, s2, s3, numUndos);
      ghost var next := t[..index] + [c] + t[index..];
      TextPadded(t);
      Snapshot();
      ShiftUp(text, len, index, c);
      InsertedText(t, index, c);
      if Roomy(t, c) {
        InsertedPadded(t, index, c);
        SnapshotTaken(t, s1, s2, s3, numUndos, next);
      }
      numUndos := numUndos + 1;
    }

    method Delete(index: nat)
      requires Valid() && numUndos <= UNDO_LIMIT && index <= |View().text|
      modifies this`numUndos, text, prev1, prev2, prev3
      ensures Valid() && View() == Edited(old(View()), Cut(old(View()).text, index))
    {
      hide CString, Padded, DocumentOf, Edited, Neighbours, Cut;
      ghost var (t, s1, s2, s3) :=
        (CString(text[..], '\0'), CString(prev1[..], '\0'), CString(prev2[..], '\0'), CString(prev3[..], '\0'));
      DocumentClamped(t, s1, s2, s3, numUndos);
      Snapshot();
      ShiftDown(text, index);
      DeletedText(t, index, text[..]);
      SnapshotTaken(t, s1, s2, s3, numUndos, Cut(t, index));
      numUndos := numUndos + 1;
    }

    /** The copy over the text leaves no stale character, since the text is hardly longer than its past. */
    method TakeBack()
      requires Valid() && 0 < numUndos <= UNDO_LIMIT
      modifies this`numUndos, text, prev1, prev2
      ensures Valid() && old(View()).history != []
      ensures View() == Document(old(View()).history[0], old(View()).history[1..])
    {
      hide CString, Padded, DocumentOf, Neighbours;
      ghost var (t, s1, s2, s3) :=
        (CString(text[..], '\0'), CString(prev1[..], '\0'), CString(prev2[..], '\0'), CString(prev3[..], '\0'));
      SnapshotUsed(t, s1, s2, s3, numUndos);
      StrCpy(text, prev1);
      OverPadded(t, s1, text[..]);
      StrCpy(prev1, prev2);
      StrCpy(prev2, prev3);
      numUndos := numUndos - 1;
    }

    /** The first switch: does what the request asks for. */
    method Perform(r: Request) returns (status: Status)
      requires Valid() && numUndos <= UNDO_LIMIT && len == |View().text|
      modifies this`numUndos, text, prev1, prev2, prev3
      ensures status == StatusOf(old(View()), r) && (status == REPORT ==> numUndos == old(numUndos))
      ensures FairEdit(old(View()), r) ==> Valid() && View() == Apply(old(View()), r)
      ensures !FairEdit(old(View()), r) ==> !Holds(Apply(old(View()), r).text)
    {
      hide CString, Padded, DocumentOf, Newest, Neighbours;
      DocumentClamped(CString(text[..], '\0'), CString(prev1[..], '\0'), CString(prev2[..], '\0'),
                      CString(prev3[..], '\0'), numUndos);
      status := OK;
      if r.command == 'i' {
        if r.index > len {
          return ERROR;
        }
        Insert(r.index, r.character);
      } else if r.command == 'd' {
        if r.index > len {
          return ERROR;
        }
        Delete(r.index);
      } else if r.command == 'u' {
        if numUndos > 0 {
          TakeBack();
        } else {
          status := ERROR;
        }
      } else if r.command == 'r' {
        status := REPORT;
      }
    }

    ghost predicate Holds(t: string)
      reads text
    {
      '\0' in text[..] && CString(text[..], '\0') == t
    }

    lemma ViewText()
      requires Valid()
      ensures Holds(View().text) && |View().history| == if numUndos > UNDO_LIMIT then UNDO_LIMIT else numUndos
      ensures |View().text| < STRING_LIMIT && '\0' !in View().text
    {
      hide CString, Padded, DocumentOf, Neighbours;
      DocumentClamped(CString(text[..], '\0'), CString(prev1[..], '\0'), CString(prev2[..], '\0'),
                      CString(prev3[..], '\0'), numUndos);
    }

    /** A report is written to a buffer as long as the text's, with a limit that allows for five bytes more
        than the text has. */
    method WriteReport() returns (temp: array<char>, inside: bool)
      requires Valid() && numUndos <= UNDO_LIMIT
      ensures fresh(temp) && temp.Length == STRING_LIMIT
      ensures inside <==> |View().text| <= STRING_LIMIT - 5
      ensures inside ==> '\0' in temp[..] && CString(temp[..], '\0') == Report(View())
      ensures inside ==> |Report(View())| < STRING_LIMIT
    {
      hide CString, Padded, DocumentOf, Neighbours;
      ViewText();
      ghost var d := View();
      temp := new char[STRING_LIMIT](_ => '\0');
      var n := StrLen(text);
      assert text[..n] == text[..][..n] == d.text;
      var s := text[..n] + " [" + Decimal(numUndos) + "]";
      OneDigit(numUndos);
      assert s == Report(d) && '\0' !in s;
      inside := SnPrintf(temp, n + 5, s);
      if inside {
        assert temp[..][..|s|] == s;
        CStringIs(temp[..], '\0', |s|);
      }
    }

    /** strncpy into the message, and the terminator. */
    method Copy(from: seq<char>)
      requires message.Length == STRING_LIMIT && '\0' in from && |CString(from, '\0')| < STRING_LIMIT
      modifies message
      ensures '\0' in message[..] && CString(message[..], '\0') == CString(from, '\0')
    {
      hide CString, Padded;
      StrNCpy(message, from, STRING_LIMIT - 1);
      message[STRING_LIMIT - 1] := '\0';
      BufferPadded(CString(from, '\0'), message[..]);
      PaddedText(CString(from, '\0'));
    }

    /** The second switch: makes the message. */
    method Respond(status: Status) returns (inside: bool)
      requires message.Length == STRING_LIMIT && message != text
      requires status == REPORT ==> Valid() && numUndos <= UNDO_LIMIT
      modifies message
      ensures inside <==> (status == REPORT ==> |View().text| <= STRING_LIMIT - 5)
      ensures inside ==> '\0' in message[..]
      ensures inside ==> (CString(message[..], '\0') ==
                          match status case OK => "OK" case ERROR => "ERROR" case REPORT => Report(View()))
    {
      hide CString, Padded, DocumentOf, Neighbours, Report;
      inside := true;
      match status {
        case OK =>
          CStringIs("OK\0", '\0', 2);
          Copy("OK\0");
        case ERROR =>
          CStringIs("ERROR\0", '\0', 5);
          Copy("ERROR\0");
        case REPORT =>
          var temp;
          temp, inside := WriteReport();
          if inside { Copy(temp[..]); }
      }
    }

    /** One turn of the loop, for one request. A fair request is served as specified, and only a fair one:
        any other leaves a buffer that does not hold the edited text, or writes behind one. */
    method Handle(r: Request) returns (status: Status, inside: bool)
      requires Valid()
      modifies this`len, this`numUndos, text, prev1, prev2, prev3, message
      ensures status == StatusOf(old(View()), r)
      ensures inside ==> '\0' in message[..] && CString(message[..], '\0') == Message(old(View()), r)
      ensures Fair(old(View()), r) ==> Valid() && View() == Apply(old(View()), r)
      ensures Fair(old(View()), r) <==> inside && Holds(Apply(old(View()), r).text)
    {
      hide CString, Padded, DocumentOf, Newest, Neighbours, Edited, Cut, Roomy, Report;
      DocumentClamped(CString(text[..], '\0'), CString(prev1[..], '\0'), CString(prev2[..], '\0'),
                      CString(prev3[..], '\0'), numUndos);
      if numUndos > UNDO_LIMIT {
        numUndos := UNDO_LIMIT;
      }
      len := StrLen(text);
      ghost var d := View();
      ViewText();
      assert d == old(View());
      status := Perform(r);
      if FairEdit(d, r) { ViewText(); }
      inside := Respond(status);
    }

    /** A whole run of the loop: the statuses and messages sent back and the document left are those of the
        requests applied one after the other. */
    method Serve(rs: seq<Request>) returns (statuses: seq<Status>, messages: seq<seq<char>>)
      requires Valid() && forall k | 0 <= k < |rs| :: Fair(After(View(), rs[..k]), rs[k])
      modifies this`len, this`numUndos, text, prev1, prev2, prev3, message
      ensures Valid() && View() == After(old(View()), rs) && |statuses| == |messages| == |rs|
      ensures forall k | 0 <= k < |rs| :: statuses[k] == StatusOf(After(old(View()), rs[..k]), rs[k])
      ensures forall k | 0 <= k < |rs| :: CString(messages[k], '\0') == Message(After(old(View()), rs[..k]), rs[k])
    {
      hide CString, Padded, DocumentOf, Apply, After, Neighbours, StatusOf, Fair, Message, Terminated;
      ghost var d := View();
      statuses, messages := [], [];
      AfterNone(d, rs);
      for n := 0 to |rs|
        invariant Valid() && View() == After(d, rs[..n]) && |statuses| == |messages| == n
        invariant forall k | 0 <= k < n :: statuses[k] == StatusOf(After(d, rs[..k]), rs[k])
        invariant forall k | 0 <= k < n :: CString(messages[k], '\0') == Message(After(d, rs[..k]), rs[k])
      {
        var status, inside := Handle(rs[n]);
        statuses := statuses + [status];
        messages := messages + [message[..]];
        AfterNext(d, rs, n);
      }
      assert rs[..|rs|] == rs;
    }
  }

  /** main up to the loop: an argument with a newline in it is a usage error. */
  method Start(arg: string, prev1: array<char>, prev2: array<char>, prev3: array<char>) returns (server: Server?)
    requires prev1.Length == prev2.Length == prev3.Length == STRING_LIMIT
    requires prev1 != prev2 && prev1 != prev3 && prev2 != prev3
    requires '\0' in prev1[..] && '\0' in prev2[..] && '\0' in prev3[..] && '\0' !in arg
    ensures server == null <==> '\n' in if |arg| < STRING_LIMIT then arg else arg[..STRING_LIMIT - 1]
    ensures server != null ==>
      && fresh(server) && server.Valid()
      && server.View() == Document(if |arg| < STRING_LIMIT then arg else arg[..STRING_LIMIT - 1], [])
  {
    hide CString;
    server := new Server(arg, prev1, prev2, prev3);
    DocumentClamped(CString(server.text[..], '\0'), CString(prev1[..], '\0'),
                    CString(prev2[..], '\0'), CString(prev3[..], '\0'), 0);
    var newline := StrChr(server.text, '\n');
    if newline {
      return null;
    }
  }
}
