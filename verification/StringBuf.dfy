/** The bounded string builder of data/stringbuf.h as a value: its whole buffer and its length. */
module StringBufModel {
  import opened Machine
  import opened Memory
  import opened CStrings

  datatype State = State(data: string, len: nat) {
    /** The header's invariants: room for the terminator, and the terminator in place. */
    predicate Valid() {
      len < |data| <= USIZE_MAX && data[len] == NUL
    }

    function Text(): string
      requires Valid()
    {
      data[..len]
    }

    predicate HasRoom(n: nat) {
      len + n + 1 <= |data|
    }

    function Appended(bytes: string): State
      requires HasRoom(|bytes|)
    {
      State(Splice(data, len, bytes + [NUL]), len + |bytes|)
    }

    /** All or nothing. */
    function Append(bytes: string): State {
      if HasRoom(|bytes|) then Appended(bytes) else this
    }

    /** A formatted append: the write pass leaves `out` behind the text, and the terminator is put back if it failed. */
    function AppendFormat(f: Formatted): State
      requires Valid() && f.Consistent()
    {
      if f.needed < 0 || !HasRoom(f.needed) then this
      else
        var written := Splice(data, len, f.out);
        if f.written == f.needed then State(written, len + f.needed)
        else State(written[len := NUL], len)
    }

    function Truncate(n: nat): State
      requires Valid()
    {
      if n < len then State(data[n := NUL], n) else this
    }

    function Clear(): State
      requires Valid()
    {
      State(data[0 := NUL], 0)
    }
  }

  /**
   * What two vsnprintf passes did: the measured length, the length the write pass reported, and the bytes it left.
   * Only a complete conversion is known to end in a NUL; the second pass may fail or disagree with the first.
   */
  datatype Formatted = Formatted(needed: int, written: int, out: string) {
    predicate Consistent() {
      needed >= 0 ==>
        |out| <= needed + 1 && (written == needed ==> |out| == needed + 1 && out[needed] == NUL)
    }
  }

  /** Where an append's bytes come from: memory of the caller's, or a part of the buffer itself. */
  datatype Source = External(bytes: string) | Own(start: nat, count: nat) {
    predicate Readable(s: State) {
      Own? ==> start + count <= |s.data|
    }

    /** The bytes the source holds at the call. */
    function Bytes(s: State): string
      requires Readable(s)
    {
      if External? then bytes else s.data[start..start + count]
    }
  }

  datatype Op = OpAppend(src: Source) | OpFormat(f: Formatted) | OpTruncate(n: nat) | OpClear

  predicate Admissible(s: State, op: Op) {
    match op
    case OpAppend(src) => src.Readable(s)
    case OpFormat(f) => f.Consistent()
    case _ => true
  }

  function Step(s: State, op: Op): State
    requires s.Valid() && Admissible(s, op)
  {
    match op
    case OpAppend(src) => s.Append(src.Bytes(s))
    case OpFormat(f) => s.AppendFormat(f)
    case OpTruncate(n) => s.Truncate(n)
    case OpClear => s.Clear()
  }

  // ---------------------------------------------------------------- the text alone

  datatype TextOp = TextAppend(bytes: string) | TextTruncate(n: nat) | TextClear

  /** An append is all or nothing in a buffer of the given capacity. */
  function TextStep(text: string, capacity: nat, op: TextOp): string {
    match op
    case TextAppend(bytes) => if |text| + |bytes| < capacity then text + bytes else text
    case TextTruncate(n) => text[..Min(n, |text|)]
    case TextClear => ""
  }

  function TextAfter(text: string, capacity: nat, ops: seq<TextOp>): string
    decreases |ops|
  {
    if |ops| == 0 then text else TextAfter(TextStep(text, capacity, ops[0]), capacity, ops[1..])
  }

  /** The bytes a successful formatting adds; a failing one adds none. */
  function Converted(f: Formatted): string
    requires f.Consistent()
  {
    if 0 <= f.needed == f.written then f.out[..f.needed] else ""
  }

  /** An operation on the text, with the bytes its source holds at the call. */
  function Resolved(s: State, op: Op): TextOp
    requires Admissible(s, op)
  {
    match op
    case OpAppend(src) => TextAppend(src.Bytes(s))
    case OpFormat(f) => TextAppend(Converted(f))
    case OpTruncate(n) => TextTruncate(n)
    case OpClear => TextClear
  }

  /** A source within the buffer's own text holds that part of the text. */
  lemma OwnText(s: State, start: nat, count: nat)
    requires s.Valid() && start + count <= s.len
    ensures Own(start, count).Readable(s)
    ensures Resolved(s, OpAppend(Own(start, count))) == TextAppend(s.Text()[start..start + count])
  {
    assert s.data[start..start + count] == s.data[..s.len][start..start + count];
  }

  lemma AppendsText(s: State, bytes: string)
    requires s.Valid()
    ensures var t := s.Append(bytes);
            && t.Valid() && |t.data| == |s.data|
            && t.Text() == if |s.Text()| + |bytes| < |s.data| then s.Text() + bytes else s.Text()
  {
    if s.HasRoom(|bytes|) {
      var t := s.Append(bytes);
      assert t.data[..t.len] == s.data[..s.len] + bytes;
    }
  }

  lemma FormatsText(s: State, f: Formatted)
    requires s.Valid() && f.Consistent()
    ensures var t := s.AppendFormat(f);
            && t.Valid() && |t.data| == |s.data|
            && t.Text() == if |s.Text()| + |Converted(f)| < |s.data| then s.Text() + Converted(f) else s.Text()
  {
    var t := s.AppendFormat(f);
    assert s.Text() + "" == s.Text();
    if f.needed >= 0 && s.HasRoom(f.needed) {
      assert t.data[..s.len] == s.data[..s.len];
      if f.written == f.needed {
        assert t.data[..t.len] == s.data[..s.len] + f.out[..f.needed];
      } else {
        assert t.Text() == s.Text() && Converted(f) == "";
      }
    }
  }

  /** Every operation keeps the invariants and changes the text as stated, wherever the bytes come from. */
  lemma StepRefinesText(s: State, op: Op)
    requires s.Valid() && Admissible(s, op)
    ensures Step(s, op).Valid() && |Step(s, op).data| == |s.data|
    ensures Step(s, op).Text() == TextStep(s.Text(), |s.data|, Resolved(s, op))
  {
    match op
    case OpAppend(src) => AppendsText(s, src.Bytes(s));
    case OpFormat(f) => FormatsText(s, f);
    case OpTruncate(n) =>
    case OpClear =>
  }

  predicate IsRun(s: State, ops: seq<Op>)
    decreases |ops|
  {
    s.Valid() && (|ops| > 0 ==> Admissible(s, ops[0]) && IsRun(Step(s, ops[0]), ops[1..]))
  }

  function After(s: State, ops: seq<Op>): State
    requires IsRun(s, ops)
    decreases |ops|
  {
    if |ops| == 0 then s else After(Step(s, ops[0]), ops[1..])
  }

  /** The operations of a run, each with the bytes its source held when it was called. */
  function AllResolved(s: State, ops: seq<Op>): seq<TextOp>
    requires IsRun(s, ops)
    decreases |ops|
  {
    if |ops| == 0 then [] else [Resolved(s, ops[0])] + AllResolved(Step(s, ops[0]), ops[1..])
  }

  /** Over every run, failing formatted appends included, the string stays terminated and the text is as stated. */
  lemma {:induction false} RunRefinesText(s: State, ops: seq<Op>)
    requires IsRun(s, ops)
    ensures After(s, ops).Valid() && |After(s, ops).data| == |s.data|
    ensures After(s, ops).Text() == TextAfter(s.Text(), |s.data|, AllResolved(s, ops))
    decreases |ops|
  {
    if |ops| > 0 {
      StepRefinesText(s, ops[0]);
      assert AllResolved(s, ops)[1..] == AllResolved(Step(s, ops[0]), ops[1..]);
      RunRefinesText(Step(s, ops[0]), ops[1..]);
    }
  }

  /** Truncating to the old length undoes any successful append. */
  lemma TruncateUndoesAppend(s: State, bytes: string)
    requires s.Valid() && s.HasRoom(|bytes|)
    ensures s.Append(bytes).Valid() && s.Append(bytes).Truncate(s.len).Valid()
    ensures s.Append(bytes).Truncate(s.len).Text() == s.Text()
  {
    StepRefinesText(s, OpAppend(External(bytes)));
    StepRefinesText(s.Append(bytes), OpTruncate(s.len));
  }

  /** Text cut off by a truncation can be appended back from the buffer's own tail, but for the byte the NUL took. */
  lemma AppendOwnTail(s: State, n: nat)
    requires s.Valid() && n < s.len
    ensures var t := s.Truncate(n); var src := Own(n + 1, s.len - n - 1);
            && t.Valid() && src.Readable(t)
            && t.Append(src.Bytes(t)).Valid()
            && t.Append(src.Bytes(t)).Text() == s.Text()[..n] + s.Text()[n + 1..]
  {
    StepRefinesText(s, OpTruncate(n));
    var t := s.Truncate(n);
    StepRefinesText(t, OpAppend(Own(n + 1, s.len - n - 1)));
  }
}

/** The StringBuf struct and its operations in place. */
module StringBufs {
  import opened Machine
  import opened Memory
  import opened CStrings
  import opened StringBufModel

  class StringBuf {
    const data: array<char>  // capacity is its length
    var len: nat

    ghost predicate Valid()
      reads this, data
    {
      Model().Valid()
    }

    ghost function Model(): State
      reads this, data
    {
      State(data[..], len)
    }

    /** stringbuf_init_buffer */
    constructor (buffer: array<char>)
      requires 1 < buffer.Length <= USIZE_MAX
      modifies buffer
      ensures Valid() && data == buffer && Model() == State(old(buffer[..])[0 := NUL], 0) && Model().Text() == ""
    {
      data := buffer;
      len := 0;
      new;
      data[0] := NUL;
    }

    /** The core append: src may be the buffer itself, overlapping the bytes written. */
    method AppendBytes(src: array<char>, off: nat, n: nat) returns (ok: bool)
      requires Valid() && off + n <= src.Length <= USIZE_MAX
      modifies this, data
      ensures Valid() && ok == old(Model()).HasRoom(n)
      ensures ok <==> old(len) + n < data.Length
      ensures Model().Text() == old(Model().Text()) + if ok then old(src[off..off + n]) else ""
      ensures Model() == old(Model()).Append(old(src[off..off + n]))
    {
      ghost var s, bytes := Model(), src[off..off + n];
      StepRefinesText(s, OpAppend(External(bytes)));
      var end := CheckedAdd(len, n);
      if end == None { return false; }
      var withNul := CheckedAdd(end.value, 1);
      if withNul == None || withNul.value > data.Length { return false; }
      Move(data, len, src, off, n);
      len := end.value;
      data[len] := NUL;
      assert data[..] == Splice(s.data, s.len, bytes + [NUL]);
      ok := true;
    }

    /** stringbuf_append: a C string, measured first. */
    method Append(src: array<char>, off: nat) returns (ok: bool)
      requires Valid() && off <= src.Length <= USIZE_MAX && NUL in src[off..]
      modifies this, data
      ensures Valid() && ok == old(Model()).HasRoom(old(|CString(src[off..])|))
      ensures ok <==> old(len) + old(|CString(src[off..])|) < data.Length
      ensures Model().Text() == old(Model().Text()) + if ok then old(CString(src[off..])) else ""
      ensures Model() == old(Model()).Append(old(CString(src[off..])))
    {
      ghost var bytes := CString(src[off..]);
      var n := Scan(src, off, src.Length - off);
      assert src[off..off + n] == bytes by { assert src[off..][..src.Length - off] == src[off..]; }
      ok := AppendBytes(src, off, n);
    }

    /** stringbuf_append_n: at most n characters, stopping at a NUL; nothing past those is read. */
    method AppendN(src: array<char>, off: nat, n: nat) returns (ok: bool)
      requires Valid() && off <= src.Length <= USIZE_MAX && (NUL in src[off..] || off + n <= src.Length)
      modifies this, data
      ensures Valid()
      ensures var bytes := old(CString(src[off..][..Min(n, src.Length - off)]));
              && ok == (bytes == "" || old(Model()).HasRoom(|bytes|))
              && Model() == (if bytes == "" then old(Model()) else old(Model()).Append(bytes))
              && (ok <==> old(len) + |bytes| < data.Length)
              && Model().Text() == old(Model().Text()) + if ok then bytes else ""
    {
      var actual := Scan(src, off, Min(n, src.Length - off));
      if actual == 0 { return true; }
      ok := AppendBytes(src, off, actual);
    }

    method AppendChar(c: char) returns (ok: bool)
      requires Valid()
      modifies this, data
      ensures Valid() && ok == old(Model()).HasRoom(1)
      ensures ok <==> old(len) + 1 < data.Length
      ensures Model().Text() == old(Model().Text()) + if ok then [c] else ""
      ensures Model() == old(Model()).Append([c])
    {
      ghost var s := Model();
      StepRefinesText(s, OpAppend(External([c])));
      var withNul := CheckedAdd(len, 2);
      if withNul == None || withNul.value > data.Length { return false; }
      data[len] := c;
      len := len + 1;
      data[len] := NUL;
      assert data[..] == Splice(s.data, s.len, [c] + [NUL]);
      ok := true;
    }

    /** stringbuf_append_fmt_va, with what vsnprintf did as an argument. */
    method AppendFormat(f: Formatted) returns (ok: bool)
      requires Valid() && f.Consistent()
      modifies this, data
      ensures Valid() && Model() == old(Model()).AppendFormat(f)
      ensures ok <==> 0 <= f.needed == f.written && old(len) + f.needed < data.Length
      ensures Model().Text() == if ok then old(Model().Text()) + f.out[..f.needed] else old(Model().Text())
    {
      ghost var s := Model();
      StepRefinesText(s, OpFormat(f));
      if f.needed < 0 { return false; }
      var end := CheckedAdd(len, f.needed);
      if end == None { return false; }
      var withNul := CheckedAdd(end.value, 1);
      if withNul == None || withNul.value > data.Length { return false; }
      Write(data, len, f.out);
      if f.written < 0 || f.written != f.needed {
        data[len] := NUL;
        return false;
      }
      len := end.value;
      ok := true;
    }

    method Clear()
      requires Valid()
      modifies this, data
      ensures Valid() && Model() == old(Model()).Clear() && Model().Text() == ""
    {
      data[0] := NUL;
      len := 0;
    }

    method Truncate(newLen: nat)
      requires Valid()
      modifies this, data
      ensures Valid() && Model() == old(Model()).Truncate(newLen)
      ensures Model().Text() == old(Model().Text())[..if newLen < old(len) then newLen else old(len)]
    {
      if newLen < len {
        len := newLen;
        data[len] := NUL;
      }
    }

    /** The answer is the longest append that succeeds. */
    method Remaining() returns (n: nat)
      requires Valid()
      ensures forall k: nat :: Model().HasRoom(k) <==> k <= n
      ensures len + n + 1 == data.Length
    {
      n := Wrap(data.Length - Wrap(len + 1));
    }
  }

  /** The length of the NUL-free prefix of at most n characters: strlen, and the counting loop of append_n. */
  method Scan(src: array<char>, off: nat, n: nat) returns (k: nat)
    requires off + n <= src.Length
    ensures k <= n && src[off..off + k] == CString(src[off..][..n])
    ensures NUL in src[off..off + n] ==> CString(src[off..][..n]) == CString(src[off..])
  {
    ghost var s := src[off..][..n];
    k := 0;
    while k < n && src[off + k] != NUL
      invariant k <= n && NUL !in s[..k]
    {
      assert s[..k + 1] == s[..k] + [s[k]];
      k := k + 1;
    }
    assert s[..k] == src[off..off + k] && src[off..off + n] == s;
    ScanEnds(src[off..], n, k);
  }

  /** Where a scan stops: at the first NUL, or after n characters without one. */
  lemma ScanEnds(t: string, n: nat, k: nat)
    requires k <= n <= |t| && NUL !in t[..n][..k] && (k < n ==> t[k] == NUL)
    ensures CString(t[..n]) == t[..n][..k]
    ensures NUL in t[..n] ==> CString(t[..n]) == CString(t)
  {
    var s := t[..n];
    if k < n {
      CStringIs(s, k);
      assert t[..k] == s[..k];
      CStringIs(t, k);
    } else {
      assert s[..k] == s;
      NulFree(s);
    }
  }
}
