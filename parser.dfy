/**
 * The string utilities of the shell: `parse_args` splits a command line in
 * place into arguments, `trimstring` copies a buffer and strips its
 * trailing blanks and control bytes, `isvalidascii` checks for printable
 * ASCII and `findpipe` finds the first `|`. Buffers are arrays of bytes; the
 * C string a buffer holds is the bytes before its first NUL. Pointers into
 * the command line are indices, and NULL is -1.
 */
module Parser {

  newtype byte = x: int | 0 <= x < 256

  const NUL: byte := 0
  const SPACE: byte := 32
  const BANG: byte := 33   // '!'
  const QUOTE: byte := 34  // '"'
  const PIPE: byte := 124  // '|'
  const TILDE: byte := 126 // '~'

  /** C `isspace` in the "C" locale: space, tab, newline, vertical tab, form feed and carriage return. */
  predicate IsSpace(c: byte) {
    c == SPACE || 9 <= c <= 13
  }

  function Min(a: int, b: int): int {
    if a < b then a else b
  }

  // ------------------------------------------------------------ C strings

  /** `strlen` from position `i`: the index of the first NUL at or after `i`, or |s| when there is none. */
  function NulFrom(s: seq<byte>, i: nat): (r: nat)
    requires i <= |s|
    ensures i <= r <= |s|
    decreases |s| - i
  {
    if i == |s| || s[i] == NUL then i else NulFrom(s, i + 1)
  }

  /** The buffer holds a C string: a NUL ends it inside the buffer. */
  predicate Terminated(s: seq<byte>) {
    NulFrom(s, 0) < |s|
  }

  /** No NUL comes before the string's end, and the end is a NUL unless it is the end of the buffer. */
  lemma {:induction false} NulFromSpec(s: seq<byte>, i: nat)
    requires i <= |s|
    ensures forall j :: i <= j < NulFrom(s, i) ==> s[j] != NUL
    ensures NulFrom(s, i) < |s| ==> s[NulFrom(s, i)] == NUL
    decreases |s| - i
  {
    if i < |s| && s[i] != NUL {
      NulFromSpec(s, i + 1);
    }
  }

  /** The first NUL at or after `i` is at `e` when `e` holds a NUL and nothing before it does. */
  lemma {:induction false} NulFromAt(s: seq<byte>, i: nat, e: nat)
    requires i <= e < |s| && s[e] == NUL
    requires forall j :: i <= j < e ==> s[j] != NUL
    ensures NulFrom(s, i) == e
    decreases e - i
  {
    if i < e {
      NulFromAt(s, i + 1, e);
    }
  }

  /** Starting later inside the same string finds the same end. */
  lemma {:induction false} NulFromSkip(s: seq<byte>, i: nat, j: nat)
    requires i <= |s| && i <= j <= NulFrom(s, i)
    ensures NulFrom(s, j) == NulFrom(s, i)
    decreases j - i
  {
    if i < j {
      NulFromSkip(s, i + 1, j);
    }
  }

  /** The C library `strlen` on a buffer that holds a C string. */
  method StrLen(buf: array<byte>) returns (n: nat)
    requires Terminated(buf[..])
    ensures n == NulFrom(buf[..], 0) && n < buf.Length && buf[n] == NUL
    ensures forall j :: 0 <= j < n ==> buf[j] != NUL
  {
    NulFromSpec(buf[..], 0);
    n := 0;
    while buf[n] != NUL
      invariant n <= NulFrom(buf[..], 0)
      invariant NulFrom(buf[..], n) == NulFrom(buf[..], 0)
      decreases NulFrom(buf[..], 0) - n
    {
      n := n + 1;
    }
  }

  // ----------------------------------------------------------- parse_args

  /** The three inner loops of parse_args: skip blanks, run to the end of a word, run to the closing quote. */
  datatype Scanner = Blanks | Word | Quoted

  /** The byte at which a loop of kind `k` stops. Every kind stops at NUL. */
  predicate Stops(k: Scanner, c: byte) {
    match k
    case Blanks => !IsSpace(c)
    case Word => c == NUL || IsSpace(c)
    case Quoted => c == NUL || c == QUOTE
  }

  /** Where a loop of kind `k` started at `i` stops (|s| if it never would). */
  function Scan(s: seq<byte>, i: nat, k: Scanner): (r: nat)
    requires i <= |s|
    ensures i <= r <= |s|
    decreases |s| - i
  {
    if i == |s| || Stops(k, s[i]) then i else Scan(s, i + 1, k)
  }

  /** The loop passes only bytes it does not stop at, and stops at one it stops at. */
  lemma {:induction false} ScanSpec(s: seq<byte>, i: nat, k: Scanner)
    requires i <= |s|
    ensures forall j :: i <= j < Scan(s, i, k) ==> !Stops(k, s[j])
    ensures Scan(s, i, k) < |s| ==> Stops(k, s[Scan(s, i, k)])
    decreases |s| - i
  {
    if i < |s| && !Stops(k, s[i]) {
      ScanSpec(s, i + 1, k);
    }
  }

  /** No loop runs past the end of the string. */
  lemma {:induction false} ScanBeforeNul(s: seq<byte>, i: nat, k: Scanner)
    requires i <= |s|
    ensures Scan(s, i, k) <= NulFrom(s, i)
    decreases |s| - i
  {
    if i < |s| && s[i] != NUL && !Stops(k, s[i]) {
      ScanBeforeNul(s, i + 1, k);
    }
  }

  /** A loop reads only the bytes from its starting point on. */
  lemma {:induction false} ScanAgree(s: seq<byte>, t: seq<byte>, i: nat, k: Scanner)
    requires i <= |s| == |t|
    requires forall j :: i <= j < |s| ==> s[j] == t[j]
    ensures Scan(s, i, k) == Scan(t, i, k)
    decreases |s| - i
  {
    if i < |s| && !Stops(k, s[i]) {
      ScanAgree(s, t, i + 1, k);
    }
  }

  /** The string from `i` depends only on the bytes from `i` on. */
  lemma {:induction false} NulFromAgree(s: seq<byte>, t: seq<byte>, i: nat)
    requires i <= |s| == |t|
    requires forall j :: i <= j < |s| ==> s[j] == t[j]
    ensures NulFrom(s, i) == NulFrom(t, i)
    decreases |s| - i
  {
    if i < |s| && s[i] != NUL {
      NulFromAgree(s, t, i + 1);
    }
  }

  /** One of the inner loops of parse_args, run on the command line from `i`. */
  method ScanBuffer(buf: array<byte>, i: nat, k: Scanner) returns (r: nat)
    requires i <= buf.Length && NulFrom(buf[..], i) < buf.Length
    ensures r == Scan(buf[..], i, k) && r <= NulFrom(buf[..], i)
  {
    ScanBeforeNul(buf[..], i, k);
    r := i;
    while !Stops(k, buf[r])
      invariant i <= r <= Scan(buf[..], i, k)
      invariant Scan(buf[..], r, k) == Scan(buf[..], i, k)
      decreases Scan(buf[..], i, k) - r
    {
      r := r + 1;
    }
  }

  /**
   * One argument found by parse_args: its first byte, the byte after its
   * last, whether it was quoted, and whether that following byte was
   * overwritten with NUL.
   */
  datatype Arg = Arg(start: nat, end: nat, quoted: bool, cut: bool)

  /** Where the argument's text begins in the line: at its opening quote when it has one. */
  function Opening(a: Arg): int {
    if a.quoted then a.start - 1 else a.start
  }

  /** What one pass of parse_args's loop finds from `p`: no argument, or one and the position after it. */
  datatype Found = NoArg | Found(arg: Arg, next: nat)

  /**
   * One pass of parse_args's loop from `p`: skip blanks and stop at the end
   * of the line; a quote opens an argument that runs to the next quote or
   * the end of the line; anything else opens a word that runs to the next
   * blank or the end. The quote or blank that ends an argument becomes NUL
   * and the scan goes on after it.
   */
  function NextArg(s: seq<byte>, p: nat): (f: Found)
    requires p <= |s|
    ensures f.Found? ==> p < f.next <= |s|
  {
    ScanSpec(s, p, Blanks);
    var q := Scan(s, p, Blanks);
    if q == |s| || s[q] == NUL then NoArg
    else if s[q] == QUOTE then
      var e := Scan(s, q + 1, Quoted);
      var cut := e < |s| && s[e] == QUOTE;
      Found(Arg(q + 1, e, true, cut), if cut then e + 1 else e)
    else
      var e := Scan(s, q, Word);
      var cut := e < |s| && s[e] != NUL;
      Found(Arg(q, e, false, cut), if cut then e + 1 else e)
  }

  /** The arguments parse_args finds from position `p` with room for `room` more (`max_args - 1 - argc`). */
  function Parse(s: seq<byte>, p: nat, room: int): seq<Arg>
    requires p <= |s|
    decreases |s| - p
  {
    if p == |s| || s[p] == NUL || room <= 0 then []
    else
      match NextArg(s, p)
      case NoArg => []
      case Found(a, next) => [a] + Parse(s, next, room - 1)
  }

  /**
   * What parse_args guarantees about an argument of `s`: it lies inside the
   * string; a quoted one follows its quote, holds no quote, and ends at the
   * closing quote (then cut) or at the end of the line; a word is not
   * empty, holds no blank, and ends at a blank (then cut) or at the end.
   */
  predicate ArgIn(s: seq<byte>, a: Arg) {
    a.start <= a.end < |s| &&
    (forall j :: a.start <= j < a.end ==> s[j] != NUL) &&
    (a.quoted ==>
      a.start > 0 && s[a.start - 1] == QUOTE &&
      (forall j :: a.start <= j < a.end ==> s[j] != QUOTE) &&
      (s[a.end] == NUL || s[a.end] == QUOTE) && (a.cut <==> s[a.end] == QUOTE)) &&
    (!a.quoted ==>
      a.start < a.end &&
      (forall j :: a.start <= j < a.end ==> !IsSpace(s[j])) &&
      (s[a.end] == NUL || IsSpace(s[a.end])) && (a.cut <==> s[a.end] != NUL))
  }

  /** Every byte of `s[i..j]` is a blank. */
  predicate Blank(s: seq<byte>, i: int, j: int) {
    0 <= i && j <= |s| && forall x :: i <= x < j ==> IsSpace(s[x])
  }

  /**
   * One pass finds nothing exactly when only blanks are left; otherwise it
   * finds an argument as ArgIn says after nothing but blanks, and goes on
   * after its cut, or stops at the end of the line when it was not cut.
   */
  lemma NextArgSpec(s: seq<byte>, p: nat)
    requires p <= |s| && NulFrom(s, p) < |s|
    ensures var f := NextArg(s, p);
      var n := NulFrom(s, p);
      (f.NoArg? <==> Blank(s, p, n)) &&
      (f.Found? ==>
        ArgIn(s, f.arg) && p <= Opening(f.arg) && Blank(s, p, Opening(f.arg)) && f.arg.end <= n &&
        (f.arg.cut ==> f.next == f.arg.end + 1 <= n) &&
        (!f.arg.cut ==> f.next == f.arg.end == n))
  {
    var n := NulFrom(s, p);
    NulFromSpec(s, p);
    ScanSpec(s, p, Blanks);
    ScanBeforeNul(s, p, Blanks);
    var q := Scan(s, p, Blanks);
    if s[q] == NUL {
      NulFromAt(s, p, q);
      return;
    }
    NulFromSkip(s, p, q);
    assert !Blank(s, p, n) by {
      assert q < n && !IsSpace(s[q]);
    }
    if s[q] == QUOTE {
      NulFromSkip(s, q, q + 1);
      ScanSpec(s, q + 1, Quoted);
      ScanBeforeNul(s, q + 1, Quoted);
    } else {
      ScanSpec(s, q, Word);
      ScanBeforeNul(s, q, Word);
    }
  }

  /** A non-empty parse is the argument of the first pass followed by the parse from where that pass stopped. */
  lemma ParseCons(s: seq<byte>, p: nat, room: int)
    requires p <= |s| && NulFrom(s, p) < |s| && Parse(s, p, room) != []
    ensures room > 0 && NextArg(s, p).Found?
    ensures var f := NextArg(s, p);
      Parse(s, p, room) == [f.arg] + Parse(s, f.next, room - 1) &&
      NulFrom(s, f.next) == NulFrom(s, p) &&
      (!f.arg.cut ==> Parse(s, f.next, room - 1) == [])
  {
    NextArgSpec(s, p);
    var f := NextArg(s, p);
    NulFromSkip(s, p, f.next);
    if !f.arg.cut {
      NulFromSpec(s, p);
    }
  }

  /** At most `room` arguments, each as ArgIn says and inside the string from `p`. */
  lemma {:induction false} ParseInside(s: seq<byte>, p: nat, room: int)
    requires p <= |s| && NulFrom(s, p) < |s|
    ensures var r := Parse(s, p, room);
      |r| <= (if room > 0 then room else 0) &&
      forall k :: 0 <= k < |r| ==> ArgIn(s, r[k]) && p <= Opening(r[k]) && r[k].end <= NulFrom(s, p)
    decreases |s| - p
  {
    var r := Parse(s, p, room);
    if r != [] {
      ParseCons(s, p, room);
      NextArgSpec(s, p);
      var f := NextArg(s, p);
      ParseInside(s, f.next, room - 1);
      assert forall k :: 0 < k < |r| ==> r[k] == Parse(s, f.next, room - 1)[k - 1];
    }
  }

  /** No argument found from `p` opens before `p`. */
  lemma {:induction false} ParseAfter(s: seq<byte>, p: nat, room: int)
    requires p <= |s| && NulFrom(s, p) < |s|
    ensures forall k :: 0 <= k < |Parse(s, p, room)| ==> p <= Opening(Parse(s, p, room)[k])
  {
    ParseInside(s, p, room);
  }

  /** `a` was cut, and the cut comes before `b` opens. */
  predicate Precedes(a: Arg, b: Arg) {
    a.cut && a.end < Opening(b)
  }

  /** The arguments come in order, and every one before the last was cut before the next one opens. */
  lemma {:induction false} ParseOrdered(s: seq<byte>, p: nat, room: int)
    requires p <= |s| && NulFrom(s, p) < |s|
    ensures var r := Parse(s, p, room);
      forall m, k :: 0 <= m < k < |r| ==> Precedes(r[m], r[k])
    decreases |s| - p
  {
    var r := Parse(s, p, room);
    if r != [] {
      ParseCons(s, p, room);
      var f := NextArg(s, p);
      var rest := Parse(s, f.next, room - 1);
      assert f.arg.cut ==> f.next == f.arg.end + 1;
      ParseOrdered(s, f.next, room - 1);
      ParseAfter(s, f.next, room - 1);
      forall m, k | 0 <= m < k < |r| ensures Precedes(r[m], r[k]) {
        assert r[k] == rest[k - 1];
        if m > 0 {
          assert r[m] == rest[m - 1];
        }
      }
    }
  }

  /** Only blanks come before the first argument and between one argument's cut and the next one's opening. */
  lemma {:induction false} ParseGaps(s: seq<byte>, p: nat, room: int)
    requires p <= |s| && NulFrom(s, p) < |s|
    ensures var r := Parse(s, p, room);
      (|r| > 0 ==> Blank(s, p, Opening(r[0]))) &&
      (forall k :: 0 < k < |r| ==> Blank(s, r[k - 1].end + 1, Opening(r[k])))
    decreases |s| - p
  {
    var r := Parse(s, p, room);
    if r != [] {
      ParseCons(s, p, room);
      NextArgSpec(s, p);
      var f := NextArg(s, p);
      var rest := Parse(s, f.next, room - 1);
      ParseGaps(s, f.next, room - 1);
      assert forall k :: 0 < k < |r| ==> r[k] == rest[k - 1];
    }
  }

  /** With room to spare, nothing but blanks is left after the last cut (or after `p`, when nothing was found). */
  lemma {:induction false} ParseComplete(s: seq<byte>, p: nat, room: int)
    requires p <= |s| && NulFrom(s, p) < |s|
    ensures var r := Parse(s, p, room);
      var n := NulFrom(s, p);
      |r| < room ==>
        (r == [] ==> Blank(s, p, n)) &&
        (r != [] && r[|r| - 1].cut ==> Blank(s, r[|r| - 1].end + 1, n))
    decreases |s| - p
  {
    var r := Parse(s, p, room);
    if r == [] {
      if s[p] == NUL {
        NulFromAt(s, p, p);
      } else if room > 0 {
        NextArgSpec(s, p);
      }
    } else {
      ParseCons(s, p, room);
      NextArgSpec(s, p);
      var f := NextArg(s, p);
      var rest := Parse(s, f.next, room - 1);
      ParseComplete(s, f.next, room - 1);
      if rest != [] {
        assert r[|r| - 1] == rest[|rest| - 1];
      }
    }
  }

  /**
   * The arguments found from `p`: at most `room` of them, each as ArgIn
   * says, in order, every one but the last cut, with only blanks before
   * and between them; and when there was room left, nothing but blanks
   * follows the last one that was cut (or `p`, when there is none).
   */
  lemma ParseSpec(s: seq<byte>, p: nat, room: int)
    requires p <= |s| && NulFrom(s, p) < |s|
    ensures var r := Parse(s, p, room);
      var n := NulFrom(s, p);
      |r| <= (if room > 0 then room else 0) &&
      (forall k :: 0 <= k < |r| ==> ArgIn(s, r[k]) && p <= Opening(r[k]) && r[k].end <= n) &&
      (forall m, k :: 0 <= m < k < |r| ==> Precedes(r[m], r[k])) &&
      (|r| > 0 ==> Blank(s, p, Opening(r[0]))) &&
      (forall k :: 0 < k < |r| ==> Blank(s, r[k - 1].end + 1, Opening(r[k]))) &&
      (|r| < room ==>
        (r == [] ==> Blank(s, p, n)) &&
        (r != [] && r[|r| - 1].cut ==> Blank(s, r[|r| - 1].end + 1, n)))
  {
    ParseInside(s, p, room);
    ParseOrdered(s, p, room);
    ParseGaps(s, p, room);
    ParseComplete(s, p, room);
  }

  /** The set of positions parse_args overwrites with NUL. */
  function CutSet(r: seq<Arg>): set<int> {
    set k | 0 <= k < |r| && r[k].cut :: r[k].end
  }

  /** The command line after parse_args: NUL at every cut position, the original bytes elsewhere. */
  function Terminate(s: seq<byte>, r: seq<Arg>): (t: seq<byte>)
    ensures |t| == |s|
  {
    seq(|s|, j requires 0 <= j < |s| => if j in CutSet(r) then NUL else s[j])
  }

  /**
   * Each `args[k]` read as a C string from the command line parse_args
   * leaves behind is exactly the argument's text in the original line.
   */
  lemma ArgsAreStrings(s: seq<byte>, maxArgs: int)
    requires Terminated(s)
    ensures var r := Parse(s, 0, maxArgs - 1);
      var t := Terminate(s, r);
      forall k :: 0 <= k < |r| ==>
        r[k].start <= r[k].end <= |s| &&
        NulFrom(t, r[k].start) == r[k].end && t[r[k].start..r[k].end] == s[r[k].start..r[k].end]
  {
    var r := Parse(s, 0, maxArgs - 1);
    forall k | 0 <= k < |r|
      ensures r[k].start <= r[k].end <= |s|
      ensures NulFrom(Terminate(s, r), r[k].start) == r[k].end
      ensures Terminate(s, r)[r[k].start..r[k].end] == s[r[k].start..r[k].end]
    {
      ArgIsString(s, maxArgs - 1, k);
    }
  }

  /** The `k`th argument as a C string of the cut line. */
  lemma ArgIsString(s: seq<byte>, room: int, k: int)
    requires Terminated(s) && 0 <= k < |Parse(s, 0, room)|
    ensures var r := Parse(s, 0, room);
      var t := Terminate(s, r);
      r[k].start <= r[k].end <= |s| &&
      NulFrom(t, r[k].start) == r[k].end && t[r[k].start..r[k].end] == s[r[k].start..r[k].end]
  {
    var r := Parse(s, 0, room);
    var t := Terminate(s, r);
    ParseInside(s, 0, room);
    ParseOrdered(s, 0, room);
    var a := r[k];
    assert ArgIn(s, a);
    forall j | a.start <= j < a.end ensures t[j] == s[j] && t[j] != NUL {
      assert j !in CutSet(r);
    }
    assert t[a.end] == NUL by {
      if !a.cut {
        assert s[a.end] == NUL;
      } else {
        assert a.end in CutSet(r);
      }
    }
    NulFromAt(t, a.start, a.end);
  }

  /**
   * parse_args: fill `args` with the start of each argument of the command
   * line, end the list with NULL (-1), cut the line into C strings in
   * place, and return how many arguments there are. `args` must have room
   * for `max_args` entries, and for at least the NULL.
   */
  method ParseArgs(input: array<byte>, args: array<int>, maxArgs: int) returns (argc: nat)
    requires Terminated(input[..])
    requires args.Length >= maxArgs && args.Length >= 1
    modifies input, args
    ensures var r := Parse(old(input[..]), 0, maxArgs - 1);
      argc == |r| && argc < args.Length &&
      input[..] == Terminate(old(input[..]), r) &&
      (forall k :: 0 <= k < argc ==> args[k] == r[k].start) &&
      args[argc] == -1 &&
      (forall k :: argc < k < args.Length ==> args[k] == old(args[k]))
  {
    ghost var s := input[..];
    ghost var args0 := args[..];
    ghost var total := maxArgs - 1;
    ghost var done: seq<Arg> := [];
    assert CutSet(done) == {};
    argc := 0;
    var p := 0;
    ghost var room := total;
    while input[p] != NUL && argc < maxArgs - 1
      invariant Progress(s, done, p, room, total)
      invariant argc == |done| && room == total - argc && argc < args.Length
      invariant input[..] == Terminate(s, done)
      invariant forall j :: p <= j < |s| ==> input[j] == s[j]
      invariant forall k :: 0 <= k < argc ==> args[k] == done[k].start
      invariant forall k :: argc <= k < args.Length ==> args[k] == args0[k]
      decreases |s| - p
    {
      var found, argc', p' := ParseRound(input, args, argc, p, s, done, room, total, args0);
      if !found {
        break;
      }
      done := done + [NextArg(s, p).arg];
      argc, p := argc', p';
      room := room - 1;
    }
    assert Parse(s, p, room) == [];
    assert done == Parse(s, 0, total);
    args[argc] := -1;
  }

  /** Where parse_args's outer loop stands: inside the string, having found `done`, with the rest still to come. */
  predicate Progress(s: seq<byte>, done: seq<Arg>, p: nat, room: int, total: int) {
    p <= NulFrom(s, 0) < |s| && NulFrom(s, p) == NulFrom(s, 0) &&
    done + Parse(s, p, room) == Parse(s, 0, total)
  }

  /**
   * One turn of parse_args's outer loop: nothing changes when only blanks
   * are left; otherwise the next argument's start is stored in
   * `args[argc]`, its end is cut, and the loop goes on from after it.
   */
  method ParseRound(input: array<byte>, args: array<int>, argc: nat, p: nat,
                    ghost s: seq<byte>, ghost done: seq<Arg>, ghost room: int, ghost total: int, ghost args0: seq<int>)
    returns (found: bool, argc': nat, p': nat)
    requires |s| == input.Length && |args0| == args.Length && 0 < room
    requires Progress(s, done, p, room, total) && input[p] != NUL
    requires argc == |done| && argc < args.Length
    requires input[..] == Terminate(s, done)
    requires forall j :: p <= j < |s| ==> input[j] == s[j]
    requires forall k :: 0 <= k < argc ==> args[k] == done[k].start
    requires forall k :: argc <= k < args.Length ==> args[k] == args0[k]
    modifies input, args
    ensures !found ==> Parse(s, p, room) == [] && input[..] == old(input[..]) && args[..] == old(args[..])
    ensures found ==> NextArg(s, p).Found?
    ensures found ==>
      var a := NextArg(s, p).arg;
      var done' := done + [a];
      argc' == argc + 1 && p < p' &&
      Progress(s, done', p', room - 1, total) &&
      input[..] == Terminate(s, done') &&
      (forall j :: p' <= j < |s| ==> input[j] == s[j]) &&
      (forall k :: 0 <= k < argc' ==> args[k] == done'[k].start) &&
      (forall k :: argc' <= k < args.Length ==> args[k] == args0[k])
  {
    ghost var before := input[..];
    var start, next;
    found, start, next := ParseOne(input, p, s);
    if !found {
      assert Parse(s, p, room) == [];
      return found, argc, p;
    }
    ghost var a := NextArg(s, p).arg;
    ParseStep(s, done, p, room, total);
    CutStep(s, done, a, p, before, input[..]);
    args[argc] := start;
    argc', p' := argc + 1, next;
  }

  /** One more argument found: the parse so far grows by it, and the next pass starts inside the same string. */
  lemma ParseStep(s: seq<byte>, done: seq<Arg>, p: nat, room: int, total: int)
    requires p <= NulFrom(s, 0) < |s| && NulFrom(s, p) == NulFrom(s, 0)
    requires s[p] != NUL && room > 0 && NextArg(s, p).Found?
    requires done + Parse(s, p, room) == Parse(s, 0, total)
    ensures var f := NextArg(s, p);
      (done + [f.arg]) + Parse(s, f.next, room - 1) == Parse(s, 0, total) &&
      f.next <= NulFrom(s, 0) && NulFrom(s, f.next) == NulFrom(s, 0)
  {
    var f := NextArg(s, p);
    assert Parse(s, p, room) == [f.arg] + Parse(s, f.next, room - 1);
    ParseCons(s, p, room);
    NextArgSpec(s, p);
  }

  /** The line after one more cut is Terminate's for one more argument, and still holds the original bytes past the cut. */
  lemma CutStep(s: seq<byte>, done: seq<Arg>, a: Arg, p: nat, before: seq<byte>, after: seq<byte>)
    requires p <= |s| && NextArg(s, p).Found? && a == NextArg(s, p).arg
    requires before == Terminate(s, done) && a.end < |s|
    requires after == (if a.cut then before[a.end := NUL] else before)
    requires forall j :: p <= j < |s| ==> before[j] == s[j]
    ensures after == Terminate(s, done + [a])
    ensures forall j :: NextArg(s, p).next <= j < |s| ==> after[j] == s[j]
  {
    TerminateOne(s, done, a);
  }

  /**
   * One pass of parse_args's outer loop from `p`, where the line still
   * holds its original bytes `s`: skip blanks, and unless the string ends
   * there, find the argument, cut it, and say where the next pass starts.
   */
  method ParseOne(input: array<byte>, p: nat, ghost s: seq<byte>) returns (found: bool, start: nat, next: nat)
    requires |s| == input.Length && p <= |s| && NulFrom(s, p) < |s|
    requires forall j :: p <= j < |s| ==> input[j] == s[j]
    modifies input
    ensures var f := NextArg(s, p);
      found == f.Found? &&
      (!found ==> input[..] == old(input[..])) &&
      (found ==>
        start == f.arg.start && next == f.next && f.arg.end < |s| &&
        input[..] == (if f.arg.cut then old(input[..])[f.arg.end := NUL] else old(input[..])))
  {
    ScanAgree(input[..], s, p, Blanks);
    NulFromAgree(input[..], s, p);
    ScanBeforeNul(s, p, Blanks);
    NulFromSkip(s, p, Scan(s, p, Blanks));
    var q := ScanBuffer(input, p, Blanks);
    if input[q] == NUL {
      return false, 0, 0;
    }
    found := true;
    if input[q] == QUOTE {
      NulFromSkip(s, p, q + 1);
      ScanSpec(s, q + 1, Quoted);
      start, next := CutArg(input, q + 1, s, Quoted);
    } else {
      start, next := CutArg(input, q, s, Word);
    }
  }

  /**
   * The quoted or the word branch of parse_args's outer loop, from the
   * argument's first byte `q`: run to its end, overwrite a closing quote or
   * a blank there with NUL, and go on after it. The source tests for the
   * quote in one branch and for "not NUL" in the other; as both scans stop
   * only at NUL or at that byte, the two tests agree.
   */
  method CutArg(input: array<byte>, q: nat, ghost s: seq<byte>, k: Scanner) returns (start: nat, next: nat)
    requires k != Blanks
    requires |s| == input.Length && q <= |s| && NulFrom(s, q) < |s|
    requires forall j :: q <= j < |s| ==> input[j] == s[j]
    modifies input
    ensures var e := Scan(s, q, k);
      var cut := e < |s| && s[e] != NUL;
      start == q && e < |s| && next == (if cut then e + 1 else e) &&
      input[..] == (if cut then old(input[..])[e := NUL] else old(input[..]))
  {
    ScanAgree(input[..], s, q, k);
    NulFromAgree(input[..], s, q);
    ScanBeforeNul(s, q, k);
    var e := ScanBuffer(input, q, k);
    start, next := q, e;
    if input[next] != NUL {
      input[next] := NUL;
      next := next + 1;
    }
  }

  /** Cutting one more argument writes a NUL at its end if it is cut, and changes nothing else. */
  lemma TerminateOne(s: seq<byte>, done: seq<Arg>, a: Arg)
    requires a.end < |s|
    ensures Terminate(s, done + [a]) == if a.cut then Terminate(s, done)[a.end := NUL] else Terminate(s, done)
  {
    CutOne(s, done, a);
  }

  /** Cutting one more argument writes one more NUL at its end if it is cut. */
  lemma CutOne(s: seq<byte>, done: seq<Arg>, a: Arg)
    ensures CutSet(done + [a]) == CutSet(done) + (if a.cut then {a.end} else {})
  {
    var r := done + [a];
    forall x | x in CutSet(r) ensures x in CutSet(done) + (if a.cut then {a.end} else {}) {
      var k :| 0 <= k < |r| && r[k].cut && r[k].end == x;
      if k < |done| {
        assert done[k] == r[k];
      }
    }
    forall x | x in CutSet(done) ensures x in CutSet(r) {
      var k :| 0 <= k < |done| && done[k].cut && done[k].end == x;
      assert r[k] == done[k];
    }
    if a.cut {
      assert r[|done|] == a;
    }
  }

  // ----------------------------------------------------------- trimstring

  /** A byte `trimstring` strips from the end: below '!' as a signed `char`, which takes in 0x80..0xff as well. */
  predicate Junk(c: byte) {
    c < BANG || c >= 128
  }

  /** `s` without its trailing junk. */
  function TrimEnd(s: seq<byte>): (t: seq<byte>)
    ensures |t| <= |s| && t == s[..|t|]
    ensures t == [] || !Junk(t[|t| - 1])
    ensures forall j :: |t| <= j < |s| ==> Junk(s[j])
  {
    if s != [] && Junk(s[|s| - 1]) then TrimEnd(s[..|s| - 1]) else s
  }

  /** The C string strncpy leaves in an `n`-byte buffer once its last byte is forced to NUL. */
  function Copied(s: seq<byte>, n: nat): (c: seq<byte>)
    requires 1 <= n <= |s|
    ensures |c| < n && forall j :: 0 <= j < |c| ==> c[j] == s[j] && c[j] != NUL
  {
    NulFromSpec(s, 0);
    s[..Min(NulFrom(s, 0), n - 1)]
  }

  function Zeros(n: nat): (z: seq<byte>)
    ensures |z| == n && forall j :: 0 <= j < n ==> z[j] == NUL
  {
    seq(n, _ => NUL)
  }

  /** The first `n` bytes of the output buffer after trimstring(out, s, n). */
  function TrimBuffer(s: seq<byte>, n: nat): (b: seq<byte>)
    requires 1 <= n <= |s|
    ensures |b| == n
  {
    var t := TrimEnd(Copied(s, n));
    t + Zeros(n - |t|)
  }

  /** The C library `strncpy(out, in, n)`: copy up to the first NUL and pad with NULs to `n` bytes. */
  method StrNCopy(output: array<byte>, input: array<byte>, n: nat)
    requires output != input && n <= output.Length && n <= input.Length
    modifies output
    ensures forall j :: 0 <= j < n ==> output[j] == (if j < NulFrom(input[..], 0) then input[j] else NUL)
    ensures forall j :: n <= j < output.Length ==> output[j] == old(output[j])
  {
    NulFromSpec(input[..], 0);
    var i := 0;
    while i < n && input[i] != NUL
      invariant i <= n && i <= NulFrom(input[..], 0)
      invariant forall j :: 0 <= j < i ==> output[j] == input[j]
      invariant forall j :: i <= j < output.Length ==> output[j] == old(output[j])
    {
      output[i] := input[i];
      i := i + 1;
    }
    assert i == n || i == NulFrom(input[..], 0);
    ghost var copied := i;
    while i < n
      invariant copied <= i <= n
      invariant forall j :: 0 <= j < copied ==> output[j] == input[j]
      invariant forall j :: copied <= j < i ==> output[j] == NUL
      invariant forall j :: i <= j < output.Length ==> output[j] == old(output[j])
    {
      output[i] := NUL;
      i := i + 1;
    }
  }

  /**
   * trimstring: copy at most `bufferlen - 1` bytes of the input string into
   * the output buffer, then overwrite its trailing junk with NUL from the
   * back; return the length of what is left. `bufferlen` must be at least 1
   * (`outputbuffer[bufferlen - 1]` is written) and both buffers that large.
   */
  method TrimString(output: array<byte>, input: array<byte>, bufferlen: nat) returns (len: nat)
    requires output != input
    requires 1 <= bufferlen <= output.Length && bufferlen <= input.Length
    modifies output
    ensures output[..bufferlen] == TrimBuffer(input[..], bufferlen)
    ensures forall j :: bufferlen <= j < output.Length ==> output[j] == old(output[j])
    ensures len == |TrimEnd(Copied(input[..], bufferlen))| == NulFrom(output[..], 0)
  {
    ghost var s := input[..];
    StrNCopy(output, input, bufferlen);
    output[bufferlen - 1] := NUL;
    CopiedInBuffer(output[..], s, bufferlen);
    var n := StrLen(output);
    var m := StripJunk(output, Copied(s, bufferlen), n, bufferlen);
    TrimDone(output[..], s, m, bufferlen);
    len := StrLen(output);
  }

  /**
   * The loop of trimstring: starting from the last byte of the string,
   * overwrite junk with NUL until a byte that is not junk or the front.
   * The buffer holds `c` and then NULs up to `bufferlen`; afterwards it
   * holds TrimEnd(c) and NULs.
   */
  method StripJunk(output: array<byte>, ghost c: seq<byte>, n: nat, bufferlen: nat) returns (m: nat)
    requires n == |c| < bufferlen <= output.Length
    requires forall j :: 0 <= j < n ==> output[j] == c[j]
    requires forall j :: n <= j < bufferlen ==> output[j] == NUL
    modifies output
    ensures m == |TrimEnd(c)|
    ensures forall j :: 0 <= j < m ==> output[j] == c[j]
    ensures forall j :: m <= j < bufferlen ==> output[j] == NUL
    ensures forall j :: bufferlen <= j < output.Length ==> output[j] == old(output[j])
  {
    assert c[..n] == c;
    var ii: int := (n as int) - 1;
    while ii >= 0 && Junk(output[ii])
      invariant -1 <= ii < n
      invariant TrimEnd(c) == TrimEnd(c[..ii + 1])
      invariant forall j :: 0 <= j <= ii ==> output[j] == c[j]
      invariant forall j :: ii < j < bufferlen ==> output[j] == NUL
      invariant forall j :: bufferlen <= j < output.Length ==> output[j] == old(output[j])
    {
      assert c[..ii + 1][..ii] == c[..ii];
      output[ii] := NUL;
      ii := ii - 1;
    }
    m := ii + 1;
  }

  /** After strncpy and the forced NUL, the buffer holds Copied's string and NULs after it. */
  lemma CopiedInBuffer(b: seq<byte>, s: seq<byte>, n: nat)
    requires 1 <= n <= |b| && n <= |s|
    requires forall j :: 0 <= j < n - 1 ==> b[j] == (if j < NulFrom(s, 0) then s[j] else NUL)
    requires b[n - 1] == NUL
    ensures var c := Copied(s, n);
      (forall j :: 0 <= j < |c| ==> b[j] == c[j]) &&
      (forall j :: |c| <= j < n ==> b[j] == NUL) &&
      NulFrom(b, 0) == |c|
  {
    var c := Copied(s, n);
    NulFromAt(b, 0, |c|);
  }

  /** The buffer the trimming loop leaves behind is TrimBuffer's, and its string is the trimmed one. */
  lemma TrimDone(b: seq<byte>, s: seq<byte>, m: nat, n: nat)
    requires 1 <= n <= |b| && n <= |s|
    requires m == |TrimEnd(Copied(s, n))|
    requires forall j :: 0 <= j < m ==> b[j] == Copied(s, n)[j]
    requires forall j :: m <= j < n ==> b[j] == NUL
    ensures b[..n] == TrimBuffer(s, n)
    ensures NulFrom(b, 0) == m
  {
    var c := Copied(s, n);
    assert b[..n] == TrimEnd(c) + Zeros(n - m);
    NulFromAt(b, 0, m);
  }

  /** trimstring is idempotent: trimming its own output again changes nothing. */
  lemma TrimIdempotent(s: seq<byte>, n: nat)
    requires 1 <= n <= |s|
    ensures TrimBuffer(TrimBuffer(s, n), n) == TrimBuffer(s, n)
  {
    var b := TrimBuffer(s, n);
    var t := TrimEnd(Copied(s, n));
    assert b[|t|] == NUL;
    NulFromAt(b, 0, |t|);
    assert Copied(b, n) == t;
  }

  /** The trimmed string is a prefix of the input string, of at most `n - 1` bytes, ending in a byte that is not junk. */
  lemma TrimmedPrefix(s: seq<byte>, n: nat)
    requires 1 <= n <= |s|
    ensures var b := TrimBuffer(s, n);
      var len := NulFrom(b, 0);
      len < n && b[..len] == s[..len] &&
      (len == 0 || !Junk(s[len - 1])) &&
      forall j :: len <= j < Min(NulFrom(s, 0), n - 1) ==> Junk(s[j])
  {
    var b := TrimBuffer(s, n);
    var t := TrimEnd(Copied(s, n));
    NulFromAt(b, 0, |t|);
    assert b[..|t|] == t;
  }

  // --------------------------------------------------------- isvalidascii

  predicate Printable(c: byte) {
    SPACE <= c <= TILDE
  }

  /** Every byte among the first `min(strlen(s), n)` is printable ASCII or a space. */
  predicate ValidAscii(s: seq<byte>, n: nat) {
    forall j :: 0 <= j < Min(NulFrom(s, 0), n) ==> Printable(s[j])
  }

  /** isvalidascii: test the bytes of the string, but no more than `bufferlen` of them. */
  method IsValidAscii(input: array<byte>, bufferlen: nat) returns (isValid: bool)
    requires Terminated(input[..])
    ensures isValid == ValidAscii(input[..], bufferlen)
  {
    var testlen := bufferlen;
    var stringlength := StrLen(input);
    if stringlength < bufferlen {
      testlen := stringlength;
    }
    isValid := true;
    for ii := 0 to testlen
      invariant isValid <==> forall j :: 0 <= j < ii ==> Printable(input[j])
    {
      var c := input[ii];
      isValid := isValid && (c >= SPACE && c <= TILDE);
    }
  }

  /** What trimstring leaves is valid whenever its input was. */
  lemma TrimKeepsValid(s: seq<byte>, n: nat)
    requires 1 <= n <= |s| && ValidAscii(s, n)
    ensures ValidAscii(TrimBuffer(s, n), n)
  {
    TrimmedPrefix(s, n);
    NulFromSpec(s, 0);
  }

  // ------------------------------------------------------------- findpipe

  /** The first `|` at or after `i` and before both `n` and the end of the string, or -1. */
  function PipeFrom(s: seq<byte>, n: nat, i: nat): (r: int)
    requires i <= |s|
    ensures r == -1 || i <= r < |s|
    decreases |s| - i
  {
    if i >= n || i == |s| || s[i] == NUL then -1
    else if s[i] == PIPE then i
    else PipeFrom(s, n, i + 1)
  }

  function PipeIndex(s: seq<byte>, n: nat): int {
    PipeFrom(s, n, 0)
  }

  /** findpipe's answer is the least index of a `|` among the first `min(strlen, n)` bytes, and -1 exactly when there is none. */
  lemma {:induction false} PipeFromSpec(s: seq<byte>, n: nat, i: nat)
    requires i <= |s|
    ensures var r := PipeFrom(s, n, i);
      var bound := Min(NulFrom(s, i), n);
      (r == -1 <==> forall j :: i <= j < bound ==> s[j] != PIPE) &&
      (r != -1 ==> r < bound && s[r] == PIPE && forall j :: i <= j < r ==> s[j] != PIPE)
    decreases |s| - i
  {
    if i < n && i < |s| && s[i] != NUL && s[i] != PIPE {
      PipeFromSpec(s, n, i + 1);
    }
  }

  /** findpipe: the index of the first `|` read before `bufferlen` bytes or the NUL, else -1. */
  method FindPipe(input: array<byte>, bufferlen: nat) returns (r: int)
    requires bufferlen <= input.Length || Terminated(input[..])
    ensures r == PipeIndex(input[..], bufferlen)
  {
    NulFromSpec(input[..], 0);
    var i := 0;
    while i < bufferlen && input[i] != NUL
      invariant i <= NulFrom(input[..], 0) && (i <= bufferlen || i == 0)
      invariant PipeFrom(input[..], bufferlen, i) == PipeIndex(input[..], bufferlen)
    {
      if input[i] == PIPE {
        return i;
      }
      i := i + 1;
    }
    return -1;
  }
}
