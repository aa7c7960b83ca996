/** Diagnostic chains of semantics/diag.h as sequences of frames. */
module DiagModel {
  import opened Machine
  import opened CStrings

  /** What a frame shows: its message is a C string. */
  datatype View = View(file: Option<CStr>, line: nat, func: Option<CStr>, code: int, text: CStr)

  function TakeLast<T>(s: seq<T>, n: nat): seq<T> {
    if |s| <= n then s else s[|s| - n..]
  }

  lemma TakeLastIsSuffix<T>(s: seq<T>, n: nat)
    ensures var t := TakeLast(s, n); |t| == Min(|s|, n) && t == s[|s| - |t|..]
  {
  }

  /** One push onto a chain of at most n frames: the oldest goes when the chain is full. */
  function Push<T>(chain: seq<T>, v: T, n: nat): seq<T> {
    TakeLast(chain + [v], n)
  }

  function Pushes<T>(chain: seq<T>, vs: seq<T>, n: nat): seq<T>
    decreases |vs|
  {
    if |vs| == 0 then chain else Pushes(Push(chain, vs[0], n), vs[1..], n)
  }

  /** The answers of the pushes: whether each dropped a frame. */
  function Drops<T>(chain: seq<T>, vs: seq<T>, n: nat): seq<bool>
    decreases |vs|
  {
    if |vs| == 0 then [] else [|chain| == n] + Drops(Push(chain, vs[0], n), vs[1..], n)
  }

  lemma TakeLastTwice<T>(s: seq<T>, more: seq<T>, n: nat)
    ensures TakeLast(TakeLast(s, n) + more, n) == TakeLast(s + more, n)
  {
    var t := TakeLast(s, n);
    TakeLastIsSuffix(s, n);
    assert s == s[..|s| - |t|] + t;
    SameTail(s[..|s| - |t|], t + more, s + more, n);
  }

  lemma SameTail<T>(front: seq<T>, t: seq<T>, whole: seq<T>, n: nat)
    requires whole == front + t && (front == [] || |t| >= n)
    ensures TakeLast(t, n) == TakeLast(whole, n)
  {
  }

  /** After any pushes the chain is exactly the last n of all frames pushed, in order. */
  lemma {:induction false} PushesKeepLast<T>(chain: seq<T>, vs: seq<T>, n: nat)
    requires |chain| <= n
    ensures Pushes(chain, vs, n) == TakeLast(chain + vs, n)
    decreases |vs|
  {
    if |vs| == 0 {
      assert chain + vs == chain;
    } else {
      var next := Push(chain, vs[0], n);
      PushesKeepLast(next, vs[1..], n);
      assert chain + vs == chain + [vs[0]] + vs[1..];
      TakeLastTwice(chain + [vs[0]], vs[1..], n);
    }
  }

  /** Push k reports a drop exactly when n frames were there already: those of the chain and the first k. */
  lemma {:induction false} DropsFromFull<T>(chain: seq<T>, vs: seq<T>, n: nat)
    requires |chain| <= n && n > 0
    ensures |Drops(chain, vs, n)| == |vs|
    ensures forall k | 0 <= k < |vs| :: Drops(chain, vs, n)[k] == (|chain| + k >= n)
    decreases |vs|
  {
    if |vs| > 0 {
      var next := Push(chain, vs[0], n);
      DropsFromFull(next, vs[1..], n);
      assert |next| == Min(|chain| + 1, n);
    }
  }

  // ---------------------------------------------------------------- rendering

  /** `%zu` */
  function Decimal(n: nat): string {
    (if n < 10 then "" else Decimal(n / 10)) + [Digit(n % 10)]
  }

  function Digit(d: nat): char
    requires d < 10
  {
    ('0' as int + d) as char
  }

  /** What a string of digits stands for. */
  function NumberOf(digits: string): int {
    if |digits| == 0 then 0
    else 10 * NumberOf(digits[..|digits| - 1]) + (digits[|digits| - 1] as int - '0' as int)
  }

  lemma {:induction false} NumberOfNext(digits: string, d: char)
    ensures NumberOf(digits + [d]) == 10 * NumberOf(digits) + (d as int - '0' as int)
  {
    assert (digits + [d])[..|digits|] == digits;
  }

  /** The digits stand for the number. */
  lemma {:induction false} DecimalReadsBack(n: nat)
    ensures NumberOf(Decimal(n)) == n
    decreases n
  {
    if n < 10 {
      NumberOfNext("", Digit(n));
      assert Decimal(n) == "" + [Digit(n)];
    } else {
      DecimalReadsBack(n / 10);
      NumberOfNext(Decimal(n / 10), Digit(n % 10));
    }
  }

  /** The first digit is not zero, unless it is the only one. */
  lemma {:induction false} NoLeadingZero(n: nat)
    ensures |Decimal(n)| > 0 && (Decimal(n)[0] == '0' ==> n == 0)
    decreases n
  {
    if n >= 10 { NoLeadingZero(n / 10); }
  }

  /** `%d` */
  function SignedDecimal(n: int): string {
    if n < 0 then "-" + Decimal(-n) else Decimal(n)
  }

  function OrElse(s: Option<CStr>, fallback: CStr): CStr {
    if s.Some? then s.value else fallback
  }

  /** The format string with its six conversions replaced. */
  function Expand(index: string, file: string, line: string, func: string, code: string, message: string): string {
    var place := "[" + index + "] " + file + ":" + line;
    var cause := " in " + func + "() -- error " + code + ": ";
    (place + cause) + ("\"" + message + "\"")
  }

  /** A frame as rendered, without the newline. */
  function FrameText(i: nat, v: View): string {
    Expand(Decimal(i), OrElse(v.file, "?"), Decimal(v.line), OrElse(v.func, "?"), SignedDecimal(v.code),
           if v.text != "" then v.text else "(no message)")
  }

  /** A negative number prints as its sign and its digits. */
  lemma SignedReadsBack(n: int)
    ensures n >= 0 ==> NumberOf(SignedDecimal(n)) == n
    ensures n < 0 ==> SignedDecimal(n)[0] == '-' && NumberOf(SignedDecimal(n)[1..]) == -n
  {
    if n < 0 {
      DecimalReadsBack(-n);
      assert SignedDecimal(n)[1..] == Decimal(-n);
    } else {
      DecimalReadsBack(n);
    }
  }

  /** A frame's text starts with where it was raised, and what follows are function, code and message. */
  lemma FrameReads(i: nat, v: View)
    ensures var place := "[" + Decimal(i) + "] " + OrElse(v.file, "?") + ":" + Decimal(v.line);
            var cause := " in " + OrElse(v.func, "?") + "() -- error " + SignedDecimal(v.code) + ": ";
            var text := FrameText(i, v);
            && place + cause <= text
            && text[|place + cause|..] == "\"" + (if v.text == "" then "(no message)" else v.text) + "\""
  {
  }

  /** The index can be read back from between the brackets. */
  lemma IndexReadsBack(i: nat, v: View)
    ensures var text, n := FrameText(i, v), |Decimal(i)|;
            && |text| > n + 1 && text[0] == '[' && text[n + 1] == ']'
            && NumberOf(text[1..n + 1]) == i && ']' !in text[1..n + 1]
  {
    DecimalReadsBack(i);
    OnlyDigits(i);
    ExpandStarts(Decimal(i), OrElse(v.file, "?"), Decimal(v.line), OrElse(v.func, "?"), SignedDecimal(v.code),
                 if v.text != "" then v.text else "(no message)");
  }

  lemma ExpandStarts(index: string, file: string, line: string, func: string, code: string, message: string)
    ensures var text := Expand(index, file, line, func, code, message);
            && |text| > |index| + 1 && text[0] == '[' && text[|index| + 1] == ']' && text[1..|index| + 1] == index
  {
    var place := "[" + index + "] " + file + ":" + line;
    assert place[1..|index| + 1] == index;
  }

  lemma {:induction false} OnlyDigits(n: nat)
    ensures forall c | c in Decimal(n) :: '0' <= c <= '9'
    decreases n
  {
    if n >= 10 { OnlyDigits(n / 10); }
  }

  /** One frame, character by character. */
  lemma FullFrame(v: View)
    requires v == View(Some("a.c"), 7, Some("f"), 3, "boom")
    ensures FrameText(0, v) == "[0] a.c:7 in f() -- error 3: \"boom\""
  {
    SmallDecimals();
    ExpandedPlace();
    ExpandedCause();
    Joined();
    JoinedWhole();
  }

  lemma ExpandedPlace()
    ensures "[" + "0" + "] " + "a.c" + ":" + "7" == "[0] a.c:7"
  {
  }

  lemma ExpandedCause()
    ensures " in " + "f" + "() -- error " + "3" + ": " == " in f() -- error 3: "
    ensures "\"" + "boom" + "\"" == "\"boom\""
  {
  }

  lemma Joined()
    ensures "[0] a.c:7" + " in f() -- error 3: " == "[0] a.c:7 in f() -- error 3: "
  {
  }

  lemma JoinedWhole()
    ensures "[0] a.c:7 in f() -- error 3: " + "\"boom\"" == "[0] a.c:7 in f() -- error 3: \"boom\""
  {
  }

  lemma SmallDecimals()
    ensures Decimal(0) == "0" && Decimal(7) == "7" && SignedDecimal(3) == "3"
  {
    assert Digit(0) == '0' && Digit(3) == '3' && Digit(7) == '7';
  }

  /** A line is the frame and one newline, at its end. */
  lemma LineEnds(format: Format, i: nat, v: View)
    ensures var line := LineText(format, i, v);
            |line| > 0 && line[|line| - 1] == '\n' && line[..|line| - 1] == format(i, v)
  {
  }

  /** How a frame is rendered from its index and contents, without the newline. */
  type Format = (nat, View) -> string

  function LineText(format: Format, i: nat, v: View): string {
    format(i, v) + "\n"
  }

  /** The first k frames rendered, one after the other. */
  function ChainText(format: Format, chain: seq<View>, k: nat): string
    requires k <= |chain|
    decreases k
  {
    if k == 0 then "" else ChainText(format, chain, k - 1) + LineText(format, k - 1, chain[k - 1])
  }

  /** No frame, no text; one frame, its line. */
  lemma ChainTextStarts(format: Format, chain: seq<View>)
    ensures ChainText(format, chain, 0) == ""
    ensures |chain| > 0 ==> ChainText(format, chain, 1) == LineText(format, 0, chain[0])
  {
  }

  /** One more frame appends its line, and stays within the whole. */
  lemma {:induction false} ChainTextNext(format: Format, chain: seq<View>, i: nat, done: string, text: string)
    requires i < |chain| && done == ChainText(format, chain, i) && text == LineText(format, i, chain[i])
    ensures ChainText(format, chain, i + 1) == done + text
    ensures |done + text| <= |ChainText(format, chain, |chain|)|
  {
    ChainTextGrows(format, chain, i + 1, |chain|);
  }

  lemma {:induction false} ChainTextGrows(format: Format, chain: seq<View>, j: nat, k: nat)
    requires j <= k <= |chain|
    ensures |ChainText(format, chain, j)| <= |ChainText(format, chain, k)|
    decreases k
  {
    if j < k { ChainTextGrows(format, chain, j, k - 1); }
  }

  /** What snprintf leaves of a text in `size` bytes: a prefix and its NUL, or nothing at all. */
  function Cut(text: string, size: nat): (r: string)
    ensures |r| <= size && (size > 0 ==> 0 < |r| <= |text| + 1)
  {
    if size == 0 then "" else text[..Min(|text|, size - 1)] + [NUL]
  }

  /** A prefix, as long as the size allows, and then the terminator. */
  lemma CutEnds(text: string, size: nat)
    requires size > 0
    ensures var r := Cut(text, size);
            && |r| == Min(|text|, size - 1) + 1
            && r[|r| - 1] == NUL && r[..|r| - 1] == text[..|r| - 1]
  {
  }

  /** The result fits exactly when it is shorter than the buffer, and is then the whole text. */
  lemma CutIsWhole(text: string, size: nat)
    requires size > 0
    ensures Cut(text, size) == text + [NUL] <==> |text| < size
  {
  }
}

/** The Diag struct, its frames in place, and the rendering loops. */
module Diags {
  import opened Machine
  import opened CStrings
  import opened DiagModel
  import opened Memory

  const INT_MAX: nat := 0x7FFF_FFFF

  /** DiagFrame, its message an inline array that keeps whatever lies behind the NUL. */
  datatype Frame = Frame(file: Option<CStr>, func: Option<CStr>, line: nat, code: int, message: string) {
    function Show(): View {
      View(file, line, func, code, CString(message))
    }
  }

  /** The copied part of a message: its C string, cut to m characters. */
  function Clip(msg: Option<string>, m: nat): (s: CStr)
    ensures |s| <= m
    ensures msg == None ==> s == ""
    ensures msg.Some? ==> |s| <= |msg.value| && s == msg.value[..|s|]
    ensures msg.Some? && |s| < m && |s| < |msg.value| ==> msg.value[|s|] == NUL
  {
    match msg
    case None => ""
    case Some(t) =>
      var c := CString(t);
      if |c| <= m then c else c[..m]
  }

  /** snprintf of section 7.19.6.5 of ISO/IEC 9899:1999 for a text whose length an int can hold. */
  method Snprintf(buf: array<char>, dst: nat, size: nat, text: string) returns (n: nat)
    requires dst + size <= buf.Length && |text| <= INT_MAX
    modifies buf
    ensures n == |text|
    ensures buf[..] == Splice(old(buf[..]), dst, Cut(text, size))
  {
    n := |text|;
    Write(buf, dst, Cut(text, size));
  }

  /** The frames that show the chain, whatever lies behind them. */
  ghost predicate Shows(frames: seq<Frame>, chain: seq<View>) {
    |chain| <= |frames| && forall i | 0 <= i < |chain| :: frames[i].Show() == chain[i]
  }

  /** The lengths are ones that an int and a usize can hold. */
  ghost predicate Measurable(format: Format, chain: seq<View>) {
    && (forall i | 0 <= i < |chain| :: |LineText(format, i, chain[i])| <= INT_MAX)
    && |ChainText(format, chain, |chain|)| <= USIZE_MAX
  }

  /** The state of diag_render's loop before frame i: the text of the frames so far is printed and measured. */
  ghost predicate Rendered(
      format: Format, chain: seq<View>, i: nat, buf: string, was: string, bufSize: nat, total: nat) {
    && i <= |chain| && total == |ChainText(format, chain, i)|
    && Printed(buf, was, ChainText(format, chain, i), bufSize)
  }

  /** A buffer that held `was` after printing `text` into its first `size` bytes. */
  predicate Printed(buf: string, was: string, text: string, size: nat) {
    size <= |was| && buf == Splice(was, 0, Cut(text, size))
  }

  lemma PrintedEnds(buf: string, was: string, text: string, size: nat)
    requires Printed(buf, was, text, size) && size > 0
    ensures |buf| == |was| && buf[Min(|text|, size - 1)] == NUL
  {
    CutEnds(text, size);
  }

  lemma AppendCut(old_: string, a: string, t: string, size: nat)
    requires size <= |old_| && size > 0
    ensures |a| < size ==>
              Splice(Splice(old_, 0, Cut(a, size)), |a|, Cut(t, size - |a|)) == Splice(old_, 0, Cut(a + t, size))
    ensures |a| >= size ==> Cut(a, size) == Cut(a + t, size)
  {
  }

  /** One iteration of diag_render: `text` goes behind the `done` characters so far, as far as there is room. */
  method RenderNext(buf: array<char>, bufSize: nat, total: nat, text: string, ghost was: string, ghost done: string)
    returns (newTotal: nat)
    requires 0 < bufSize <= buf.Length == |was| && |text| <= INT_MAX
    requires total == |done| && |done + text| <= USIZE_MAX
    requires Printed(buf[..], was, done, bufSize)
    modifies buf
    ensures newTotal == |done + text|
    ensures Printed(buf[..], was, done + text, bufSize)
  {
    AppendCut(was, done, text, bufSize);
    var dst, rem := 0, 0;
    if total < bufSize { dst, rem := total, bufSize - total; }
    var n := Snprintf(buf, dst, rem, text);
    newTotal := Wrap(total + n);
  }

  /** `buf[0] = '\0'` */
  method Terminate(buf: array<char>, bufSize: nat)
    requires 0 < bufSize <= buf.Length
    modifies buf
    ensures Printed(buf[..], old(buf[..]), "", bufSize)
  {
    ghost var was := buf[..];
    buf[0] := NUL;
    assert buf[..] == was[0 := NUL] == Splice(was, 0, Cut("", bufSize));
  }

  lemma NothingRendered(format: Format, chain: seq<View>, buf: string, was: string, bufSize: nat)
    requires Printed(buf, was, "", bufSize)
    ensures Rendered(format, chain, 0, buf, was, bufSize, 0)
  {
    ChainTextStarts(format, chain);
  }

  /** The turn of diag_render's loop for frame i. */
  method RenderLine(
      format: Format, i: nat, f: Frame, buf: array<char>, bufSize: nat, total: nat,
      ghost chain: seq<View>, ghost was: string)
    returns (newTotal: nat)
    requires 0 < bufSize <= buf.Length == |was| && i < |chain| && f.Show() == chain[i] && Measurable(format, chain)
    requires Rendered(format, chain, i, buf[..], was, bufSize, total)
    modifies buf
    ensures Rendered(format, chain, i + 1, buf[..], was, bufSize, newTotal)
  {
    var text := LineText(format, i, f.Show());
    ghost var done := ChainText(format, chain, i);
    ChainTextNext(format, chain, i, done, text);
    newTotal := RenderNext(buf, bufSize, total, text, was, done);
  }

  class Diag {
    const frames: array<Frame>
    const messageSize: nat  // DIAG_MAX_MSG_LEN; DIAG_MAX_FRAMES is frames.Length
    var depth: nat

    ghost predicate Valid()
      reads this, frames
    {
      && messageSize >= 1 && frames.Length >= 1 && depth <= frames.Length
      && (forall i | 0 <= i < frames.Length :: |frames[i].message| == messageSize)
      && (forall i | 0 <= i < depth :: NUL in frames[i].message)
    }

    ghost function Chain(): (c: seq<View>)
      requires Valid()
      reads this, frames
      ensures |c| == depth && forall i | 0 <= i < depth :: c[i] == frames[i].Show()
    {
      seq(depth, i requires 0 <= i < depth reads this, frames requires Valid() => frames[i].Show())
    }

    /** diag_init zeroes the whole struct. */
    constructor (maxFrames: nat, maxMessage: nat)
      requires maxFrames >= 1 && maxMessage >= 1
      ensures Valid() && Chain() == [] && frames.Length == maxFrames && messageSize == maxMessage
      ensures fresh(frames)
    {
      messageSize := maxMessage;
      frames := new Frame[maxFrames](_ => Frame(None, None, 0, 0, seq(maxMessage, _ => NUL)));
      depth := 0;
    }

    method Clear()
      requires Valid()
      modifies this
      ensures Valid() && Chain() == []
    {
      depth := 0;
    }

    /** The shift of a full chain: the oldest frame goes, the others move down one. */
    method DropOldest()
      requires Valid() && depth == frames.Length
      modifies this, frames
      ensures Valid() && depth == frames.Length - 1 && Chain() == old(Chain())[1..]
    {
      forall i | 0 <= i < frames.Length - 1 { frames[i] := frames[i + 1]; }
      depth := depth - 1;
    }

    /** The scan for the message's length. */
    method MessageLength(msg: string) returns (len: nat)
      requires Valid() && (NUL in msg || |msg| >= messageSize - 1)
      ensures len < messageSize && len <= |msg| && msg[..len] == Clip(Some(msg), messageSize - 1)
    {
      len := 0;
      while len < messageSize - 1 && msg[len] != NUL
        invariant len <= messageSize - 1 && len <= |msg| && NUL !in msg[..len]
      {
        assert msg[..len + 1] == msg[..len] + [msg[len]];
        len := len + 1;
      }
      ClipIs(msg, messageSize - 1, len);
    }

    /** The new frame, its text copied over the stale message of the slot. */
    method Store(file: Option<CStr>, line: nat, func: Option<CStr>, code: int, text: CStr)
      requires Valid() && depth < frames.Length && |text| < messageSize
      modifies this, frames
      ensures Valid() && Chain() == old(Chain()) + [View(file, line, func, code, text)]
    {
      var message := text + [NUL] + frames[depth].message[|text| + 1..];
      assert message[..|text|] == text && message[|text|] == NUL;
      CStringIs(message, |text|);
      frames[depth] := Frame(file, func, line, code, message);
      depth := depth + 1;
    }

    /** msg is what is readable at the message pointer: up to a NUL, or as far as the scan can go. */
    method Push(file: Option<CStr>, line: nat, func: Option<CStr>, code: int, msg: Option<string>)
      returns (dropped: bool)
      requires Valid()
      requires msg.Some? ==> NUL in msg.value || |msg.value| >= messageSize - 1
      modifies this, frames
      ensures Valid()
      ensures var frame := View(file, line, func, code, Clip(msg, messageSize - 1));
              Chain() == DiagModel.Push(old(Chain()), frame, frames.Length)
      ensures dropped <==> old(|Chain()|) == frames.Length
    {
      ghost var chain := Chain();
      dropped := depth == frames.Length;
      if dropped { DropOldest(); }
      var text := "";
      if msg.Some? {
        var len := MessageLength(msg.value);
        text := msg.value[..len];
      }
      ghost var before := Chain();
      Store(file, line, func, code, text);
      PushIs(chain, View(file, line, func, code, text), frames.Length);
      assert before == if dropped then chain[1..] else chain;
    }

    method RenderFrame(i: nat, index: nat, buf: array<char>, bufSize: nat) returns (n: nat)
      requires Valid() && i < depth && bufSize <= buf.Length && |FrameText(index, Chain()[i])| <= INT_MAX
      modifies buf
      ensures n == (if bufSize == 0 then 0 else |FrameText(index, Chain()[i])|)
      ensures bufSize > 0 ==> buf[Min(n, bufSize - 1)] == NUL
      ensures buf[..] == Splice(old(buf[..]), 0, Cut(FrameText(index, Chain()[i]), bufSize))
    {
      if bufSize == 0 { return 0; }
      CutEnds(FrameText(index, frames[i].Show()), bufSize);
      n := Snprintf(buf, 0, bufSize, FrameText(index, frames[i].Show()));
      assert buf[Min(n, bufSize - 1)] == buf[..][Min(n, bufSize - 1)];
    }

    /** The loop of diag_render over a buffer that holds an empty string. */
    method RenderFrames(format: Format, buf: array<char>, bufSize: nat, ghost chain: seq<View>, ghost was: string)
      returns (total: nat)
      requires 0 < bufSize <= buf.Length == |was| && |chain| == depth
      requires Shows(frames[..], chain) && Measurable(format, chain)
      requires Printed(buf[..], was, "", bufSize)
      modifies buf
      ensures Rendered(format, chain, |chain|, buf[..], was, bufSize, total)
    {
      total := 0;
      ghost var shown := frames[..];
      NothingRendered(format, chain, buf[..], was, bufSize);
      for i := 0 to depth
        invariant frames[..] == shown
        invariant Rendered(format, chain, i, buf[..], was, bufSize, total)
      {
        var f := frames[i];
        assert f == shown[i];
        total := RenderLine(format, i, f, buf, bufSize, total, chain, was);
      }
    }

    /** The buffer holds all rendered frames cut to its size, and the result is their untruncated length. */
    method Render(buf: array<char>, bufSize: nat) returns (total: nat)
      requires Valid() && bufSize <= buf.Length
      requires forall i | 0 <= i < depth :: |LineText(FrameText, i, Chain()[i])| <= INT_MAX
      requires |ChainText(FrameText, Chain(), depth)| <= USIZE_MAX
      modifies buf
      ensures total == (if bufSize == 0 then 0 else |ChainText(FrameText, old(Chain()), depth)|)
      ensures bufSize > 0 ==> buf[Min(total, bufSize - 1)] == NUL
      ensures buf[..] == Splice(old(buf[..]), 0, Cut(ChainText(FrameText, old(Chain()), depth), bufSize))
    {
      total := RenderWith(FrameText, buf, bufSize, Chain());
    }

    /** diag_render, for frames rendered in any format. */
    method RenderWith(format: Format, buf: array<char>, bufSize: nat, ghost chain: seq<View>) returns (total: nat)
      requires bufSize <= buf.Length && |chain| == depth
      requires Shows(frames[..], chain) && Measurable(format, chain)
      modifies buf
      ensures total == (if bufSize == 0 then 0 else |ChainText(format, chain, depth)|)
      ensures bufSize > 0 ==> buf[Min(total, bufSize - 1)] == NUL
      ensures buf[..] == Splice(old(buf[..]), 0, Cut(ChainText(format, chain, depth), bufSize))
    {
      ghost var was := buf[..];
      if bufSize == 0 { return 0; }
      Terminate(buf, bufSize);
      PrintedEnds(buf[..], was, "", bufSize);
      if depth == 0 { return 0; }
      total := RenderFrames(format, buf, bufSize, chain, was);
      PrintedEnds(buf[..], was, ChainText(format, chain, depth), bufSize);
    }

    method FrameAt(i: nat) returns (v: Option<View>)
      requires Valid()
      ensures v == if i < depth then Some(Chain()[i]) else None
    {
      v := if i >= depth then None else Some(frames[i].Show());
    }

    /** The surface error: the frame pushed last. */
    method Latest() returns (v: Option<View>)
      requires Valid()
      ensures v == if depth == 0 then None else Some(Chain()[depth - 1])
    {
      v := if depth == 0 then None else Some(frames[depth - 1].Show());
    }
  }

  lemma PushIs(chain: seq<View>, v: View, n: nat)
    requires |chain| <= n && n > 0
    ensures DiagModel.Push(chain, v, n) == (if |chain| == n then chain[1..] else chain) + [v]
  {
  }

  lemma ClipIs(t: string, m: nat, n: nat)
    requires n <= m && n <= |t| && NUL !in t[..n] && (n < m ==> n < |t| && t[n] == NUL)
    ensures Clip(Some(t), m) == t[..n]
  {
    if n < |t| && t[n] == NUL {
      CStringIs(t, n);
    } else {
      CStringAtLeast(t, n);
    }
  }
}
