/** The resumable parser of multibulk requests (proxysession.cc). */
module Multibulk {
  import Coding
  import opened Lists
  import opened Ordering

  const CR: char := '\r'
  const LF: char := '\n'
  const NUL: char := '\0'

  // ----- Searching and reading numbers in memory -----

  /** The first occurrence of c from p on, before the first NUL; the memory given ends the search too. */
  function Strchr(m: string, p: nat, c: char): (r: Option<nat>)
    ensures r.Some? ==> p <= r.value < |m| && m[r.value] == c
    decreases |m| - p
  {
    if p >= |m| || (m[p] == NUL && c != NUL) then None
    else if m[p] == c then Some(p)
    else Strchr(m, p + 1, c)
  }

  predicate IsDigit(c: char) { '0' <= c <= '9' }

  predicate IsSpace(c: char) { c == ' ' || '\t' <= c <= CR }

  /** Digits from p on, appended to a number: the number and the position after them. */
  function ReadDigits(m: string, p: nat, acc: nat): (r: (nat, nat))
    ensures p <= r.1
    decreases |m| - p
  {
    if p < |m| && IsDigit(m[p]) then ReadDigits(m, p + 1, acc * 10 + (m[p] - '0') as nat) else (acc, p)
  }

  function SkipSpace(m: string, p: nat): (q: nat)
    ensures p <= q
    decreases |m| - p
  {
    if p < |m| && IsSpace(m[p]) then SkipSpace(m, p + 1) else p
  }

  /** Space, a sign, digits; without digits the value is 0 and nothing is consumed. */
  function Strtoll(m: string, p: nat): (r: (int, nat))
    ensures p <= r.1
  {
    var q := SkipSpace(m, p);
    var signed := q < |m| && (m[q] == '-' || m[q] == '+');
    var start := if signed then q + 1 else q;
    var (n, end) := ReadDigits(m, start, 0);
    var value: int := if signed && m[q] == '-' then -(n as int) else n as int;
    if end == start then (0, p) else (value, end)
  }

  function Decimal(n: nat): (s: string)
    ensures |s| > 0 && forall i :: 0 <= i < |s| ==> IsDigit(s[i])
  {
    var d := [('0' as int + n % 10) as char];
    if n < 10 then d else Decimal(n / 10) + d
  }

  function Pow10(k: nat): nat { if k == 0 then 1 else 10 * Pow10(k - 1) }

  /** Counted from the end, character i of a decimal number is its digit of 10 to the i. */
  lemma {:induction false} DecimalDigit(n: nat, i: nat)
    requires i < |Decimal(n)|
    ensures Pow10(i) > 0 && (Decimal(n)[|Decimal(n)| - 1 - i] - '0') as nat == n / Pow10(i) % 10
    ensures i == |Decimal(n)| - 1 && i > 0 ==> Decimal(n)[0] != '0'
    decreases n
  {
    if i > 0 {
      DecimalDigit(n / 10, i - 1);
      Coding.DivideTwice(n, 10, Pow10(i - 1));
    }
  }

  lemma {:induction false} ReadsDecimal(m: string, p: nat, n: nat)
    requires At(m, p, Decimal(n))
    ensures ReadDigits(m, p, 0) == ReadDigits(m, p + |Decimal(n)|, n)
  {
    hide ReadDigits, Decimal, At, IsDigit;
    var front, c := LastDigit(n);
    if n < 10 {
      assert Decimal(n) == [c];
      AtIndex(m, p, [c], 0);
      ReadDigit(m, p, 0);
    } else {
      AtSplit(m, p, front, [c]);
      ReadsDecimal(m, p, n / 10);
      AtIndex(m, p + |front|, [c], 0);
      ReadDigit(m, p + |front|, n / 10);
    }
  }

  lemma ReadDigit(m: string, p: nat, acc: nat)
    requires p < |m| && IsDigit(m[p])
    ensures ReadDigits(m, p, acc) == ReadDigits(m, p + 1, acc * 10 + (m[p] - '0') as nat)
  {
  }

  lemma LastDigit(n: nat) returns (front: string, c: char)
    ensures Decimal(n) == front + [c] && front == if n < 10 then [] else Decimal(n / 10)
    ensures IsDigit(c) && n / 10 * 10 + (c - '0') as nat == n
  {
    front, c := if n < 10 then [] else Decimal(n / 10), ('0' as int + n % 10) as char;
  }

  lemma StrtollDecimal(m: string, p: nat, n: nat)
    requires At(m, p, Decimal(n)) && p + |Decimal(n)| < |m| && m[p + |Decimal(n)|] == CR
    ensures Strtoll(m, p) == (n as int, p + |Decimal(n)|)
  {
    hide Decimal;
    ReadsDecimal(m, p, n);
    DecimalStarts(n);
    assert m[p] == m[p..p + |Decimal(n)|][0];
  }

  lemma DecimalStarts(n: nat)
    ensures |Decimal(n)| > 0 && IsDigit(Decimal(n)[0]) && CR !in Decimal(n) && NUL !in Decimal(n)
  {
    var s := Decimal(n);
    forall i | 0 <= i < |s|
      ensures s[i] != CR && s[i] != NUL
    {
      assert IsDigit(s[i]);
    }
  }

  // ----- One length line -----

  function LengthLine(marker: char, n: nat): (line: string)
    ensures |line| >= 4
  {
    [marker] + Decimal(n) + [CR, LF]
  }

  datatype Line = Incomplete | ProtocolError | Length(value: nat, next: nat)

  /**
   * Read a line that starts at p: the memory, of which the first `readable` characters are in the buffer. The
   * comparison of the line's end with the buffer's is made on unsigned numbers, and says nothing when fewer
   * than two characters are left.
   */
  function ReadLine(m: string, readable: nat, p: nat, marker: char, big: nat): Line
    requires p <= readable <= |m|
  {
    match Strchr(m, p, CR)
    case None => Incomplete
    case Some(newline) =>
      if readable - p >= 2 && newline - p > readable - p - 2 then Incomplete
      else if m[p] != marker then ProtocolError
      else
        var (ll, end) := Strtoll(m, p + 1);
        if ll <= 0 || ll > big then ProtocolError else Length(ll, end + 2)
  }

  /** What lies beyond the buffer would be taken for the end of a line. */
  predicate Stale(beyond: string) { Strchr(beyond, 0, CR).Some? }

  /** That is a carriage return before any zero. */
  lemma {:induction false} StaleIff(beyond: string)
    ensures Stale(beyond) <==> exists i :: 0 <= i < |beyond| && beyond[i] == CR && NUL !in beyond[..i]
  {
    StrchrIff(beyond, 0, CR);
    if i: nat :| i < |beyond| && beyond[i] == CR && NUL !in beyond[..i] {
      assert forall j :: 0 <= j < i ==> beyond[j] in beyond[..i];
    }
    if Stale(beyond) {
      var i := Strchr(beyond, 0, CR).value;
      assert NUL !in beyond[..i];
    }
  }

  lemma {:induction false} StrchrIff(m: string, p: nat, c: char)
    requires p <= |m| && c != NUL
    ensures var r := Strchr(m, p, c);
      && (r.Some? ==> p <= r.value < |m| && m[r.value] == c)
      && (r.Some? ==> forall j :: p <= j < r.value ==> m[j] != c && m[j] != NUL)
      && (forall i :: p <= i < |m| && m[i] == c && (forall j :: p <= j < i ==> m[j] != NUL) ==> r.Some?)
    decreases |m| - p
  {
    if p < |m| {
      StrchrIff(m, p + 1, c);
    }
  }

  lemma {:induction false} StrchrSkips(m: string, p: nat, q: nat, c: char)
    requires p <= q <= |m| && forall i :: p <= i < q ==> m[i] != c && m[i] != NUL
    ensures Strchr(m, p, c) == Strchr(m, q, c)
    decreases q - p
  {
    if p < q {
      StrchrSkips(m, p + 1, q, c);
    }
  }

  lemma {:induction false} StrchrBeyond(readable: string, beyond: string, i: nat, c: char)
    requires i <= |beyond|
    ensures var a, b := Strchr(readable + beyond, |readable| + i, c), Strchr(beyond, i, c);
      a == if b.Some? then Some(|readable| + b.value) else None
    decreases |beyond| - i
  {
    if i < |beyond| {
      assert (readable + beyond)[|readable| + i] == beyond[i];
      StrchrBeyond(readable, beyond, i + 1, c);
    }
  }

  /**
   * A whole line is read, whatever lies beyond the buffer, and accepted exactly if it starts with the right marker
   * and its length is from 1 to the limit.
   */
  lemma {:induction false} WholeLine(
    buffer: string, beyond: string, p: nat, found: char, marker: char, n: nat, big: nat)
    requires At(buffer, p, LengthLine(found, n)) && found != CR && found != NUL
    ensures ReadLine(buffer + beyond, |buffer|, p, marker, big)
      == if found == marker && 0 < n <= big then Length(n, p + |LengthLine(found, n)|) else ProtocolError
  {
    hide Decimal, Strchr, Strtoll, ReadLine;
    var m, digits := buffer + beyond, Decimal(n);
    var line := LengthLine(found, n);
    DecimalStarts(n);
    forall i | 0 <= i < |line|
      ensures m[p + i] == line[i]
    {
      assert m[p + i] == buffer[p..p + |line|][i];
    }
    var end := p + 1 + |digits|;
    forall i | p <= i < end
      ensures m[i] != CR && m[i] != NUL
    {
      assert m[i] == line[i - p];
      if i > p {
        assert line[i - p] == digits[i - p - 1];
        assert digits[i - p - 1] in digits;
      }
    }
    assert m[end] == line[1 + |digits|] == CR;
    StrchrSkips(m, p, end, CR);
    StrchrHere(m, end, CR);
    forall j | 0 <= j < |digits|
      ensures m[p + 1 + j] == digits[j]
    {
      assert m[p + (1 + j)] == line[1 + j];
    }
    assert m[p + 1..end] == digits;
    StrtollDecimal(m, p + 1, n);
    assert m[p] == line[0] == found;
    LineEnds(m, |buffer|, p, marker, big, end, n);
  }

  lemma LineEnds(m: string, readable: nat, p: nat, marker: char, big: nat, end: nat, n: nat)
    requires p <= readable <= |m| && p < end && end + 2 <= readable
    requires Strchr(m, p, CR) == Some(end) && Strtoll(m, p + 1) == (n, end)
    ensures ReadLine(m, readable, p, marker, big)
      == if m[p] == marker && 0 < n <= big then Length(n, end + 2) else ProtocolError
  {
    hide Strchr, Strtoll;
  }

  lemma StrchrHere(m: string, p: nat, c: char)
    requires p < |m| && m[p] == c && c != NUL
    ensures Strchr(m, p, c) == Some(p)
  {
  }

  /**
   * A line of which only a part has arrived is left for later if and only if two characters of it are there or
   * nothing beyond the buffer passes for a line end. Otherwise the reader fails or runs past the buffer.
   */
  lemma {:induction false} PartOfLine(buffer: string, beyond: string, p: nat, marker: char, n: nat, big: nat)
    requires p <= |buffer| && |buffer| - p < |LengthLine(marker, n)| && marker != CR && marker != NUL
    requires buffer[p..] == LengthLine(marker, n)[..|buffer| - p]
    ensures var r := ReadLine(buffer + beyond, |buffer|, p, marker, big);
      && (r == Incomplete <==> !(|buffer| - p < 2 && Stale(beyond)))
      && (r.Length? ==> r.next > |buffer|)
  {
    hide Decimal, Strchr, Strtoll;
    var m, digits, line := buffer + beyond, Decimal(n), LengthLine(marker, n);
    var have := |buffer| - p;
    DecimalStarts(n);
    forall i | p <= i < |buffer|
      ensures m[i] == line[i - p]
    {
      assert buffer[i] == buffer[p..][i - p];
    }
    forall i | p <= i < |buffer| && i < p + 1 + |digits|
      ensures m[i] != CR && m[i] != NUL
    {
      if i > p {
        assert line[i - p] == digits[i - p - 1];
        assert digits[i - p - 1] in digits;
      }
    }
    if have <= 1 + |digits| {
      StrchrSkips(m, p, |buffer|, CR);
      StrchrBeyond(buffer, beyond, 0, CR);
    } else {
      var end := p + 1 + |digits|;
      assert m[end] == line[1 + |digits|] == CR;
      StrchrSkips(m, p, end, CR);
      StrchrHere(m, end, CR);
    }
  }

  // ----- Requests -----

  function Bulk(arg: string): string { LengthLine('$', |arg|) + arg + [CR, LF] }

  function Body(args: seq<string>): string {
    if args == [] then [] else Body(args[..|args| - 1]) + Bulk(args[|args| - 1])
  }

  function Encode(args: seq<string>): (bs: string)
    ensures |bs| >= 4
  {
    LengthLine('*', |args|) + Body(args)
  }

  function EncodeAll(requests: seq<seq<string>>): string {
    if requests == [] then [] else Encode(requests[0]) + EncodeAll(requests[1..])
  }

  /** A short argument, and what a client sends for a get of a short key. */
  lemma ShortBulk(arg: string)
    requires |arg| < 10
    ensures Bulk(arg) == "$" + ["0123456789"[|arg|]] + "\r\n" + arg + "\r\n"
  {
    hide Decimal;
    OneDigit(|arg|);
  }

  lemma EncodedGet(key: string)
    requires |key| < 10
    ensures Encode(["GET", key]) == "*2\r\n" + "$3\r\nGET\r\n" + ("$" + ["0123456789"[|key|]] + "\r\n" + key + "\r\n")
  {
    hide Body, Decimal, Bulk;
    TwoBulks("GET", key);
    OneDigit(2);
    ShortBulk("GET");
    ShortBulk(key);
  }

  lemma TwoBulks(a: string, b: string)
    ensures Body([a, b]) == Bulk(a) + Bulk(b)
  {
    hide Bulk;
    assert [a, b][..1] == [a] && [a][..0] == [];
    assert Body([]) == [] && Body([a]) == Body([]) + Bulk(a) && Body([a, b]) == Body([a]) + Bulk(b);
  }

  lemma OneDigit(n: nat)
    requires n < 10
    ensures Decimal(n) == ["0123456789"[n]]
  {
  }

  /** The lengths the parser accepts. */
  predicate Fits(n: nat, big: nat) { 0 < n <= big }

  /** The number of arguments and the lengths of the first m of them are accepted. */
  ghost predicate Taken(args: seq<string>, big: nat, m: nat) {
    Fits(|args|, big) && forall i :: 0 <= i < m && i < |args| ==> Fits(|args[i]|, big)
  }

  /** The requests the parser accepts: at least one argument, none empty, nothing too long. */
  ghost predicate Acceptable(args: seq<string>, big: nat) { Taken(args, big, |args|) }

  /** A command that starts with a capital has 32 added to each of its characters. */
  function Lower(s: string): string {
    if s != [] && 'A' <= s[0] <= 'Z' then seq(|s|, i requires 0 <= i < |s| => ((s[i] as int + 32) % 256) as char) else s
  }

  /** The arguments kept after the first n: all for a command handled here, else only the first. */
  function Kept(known: string -> bool, args: seq<string>, n: nat): seq<string>
    requires n <= |args|
  {
    if n <= 1 then []
    else Kept(known, args, n - 1) + if n == 2 || known(Lower(args[0])) then [args[n - 1]] else []
  }

  /** What a request is handed on as. */
  datatype Command = Command(name: string, args: seq<string>, raw: string)

  function HandedOn(known: string -> bool, args: seq<string>): Command {
    var name := if args == [] then "" else Lower(args[0]);
    var kept := Kept(known, args, |args|);
    Command(name, if !known(name) && kept == [] then [name] else kept, Encode(args))
  }

  function HandedOnAll(known: string -> bool, requests: seq<seq<string>>): seq<Command> {
    seq(|requests|, r requires 0 <= r < |requests| => HandedOn(known, requests[r]))
  }

  predicate Capital(c: char) { 'A' <= c <= 'Z' }

  /** The small letter at the place of a capital in the alphabet. */
  function Small(c: char): char
    requires Capital(c)
  {
    'a' + (c - 'A')
  }

  /**
   * What a command has to be: a name in capitals becomes the same name in small letters, one that does not start with
   * a capital stays; a command handled here gets all its arguments and another one its first, or for want of one its
   * name.
   */
  ghost predicate Named(known: string -> bool, args: seq<string>, c: Command)
    requires args != [] && args[0] != ""
  {
    && |c.name| == |args[0]|
    && ((forall i :: 0 <= i < |c.name| ==> Capital(args[0][i])) ==>
          forall i :: 0 <= i < |c.name| ==> c.name[i] == Small(args[0][i]))
    && (if Capital(args[0][0]) then forall i :: 0 <= i < |c.name| ==> c.name[i] as int == (args[0][i] as int + 32) % 256
        else c.name == args[0])
    && c.args == (if known(c.name) then args[1..] else if |args| > 1 then [args[1]] else [c.name])
    && c.raw == Encode(args)
  }

  lemma {:induction false} HandedOnIsNamed(known: string -> bool, args: seq<string>)
    requires args != [] && args[0] != ""
    ensures Named(known, args, HandedOn(known, args))
  {
    hide Encode, Lower;
    LowerIs(args[0]);
    KeptIs(known, args, |args|);
    assert args[1..|args|] == args[1..];
  }

  lemma LowerIs(s: string)
    requires s != ""
    ensures |Lower(s)| == |s|
    ensures if Capital(s[0]) then forall i :: 0 <= i < |s| ==> Lower(s)[i] as int == (s[i] as int + 32) % 256
            else Lower(s) == s
    ensures (forall i :: 0 <= i < |s| ==> Capital(s[i])) ==> forall i :: 0 <= i < |s| ==> Lower(s)[i] == Small(s[i])
  {
  }

  /** Only the first character is looked at: what follows it is shifted even if it is a small letter already. */
  lemma MixedCase()
    ensures Lower("GET") == "get" && |Lower("Get")| == 3 && Lower("Get")[1] as int == 133 && Lower("Get") != "get"
  {
    assert Lower("GET")[0] == 'g' && Lower("GET")[1] == 'e' && Lower("GET")[2] == 't';
  }

  lemma {:induction false} KeptIs(known: string -> bool, args: seq<string>, n: nat)
    requires 0 < n <= |args|
    ensures Kept(known, args, n) ==
      if known(Lower(args[0])) then args[1..n] else if n > 1 then [args[1]] else []
  {
    hide Lower;
    if n > 1 {
      KeptIs(known, args, n - 1);
    }
  }

  /** How many of the first requests are whole in the first n characters of their stream, none refused before them. */
  ghost function Served(requests: seq<seq<string>>, big: nat, n: nat): (k: nat)
    ensures k <= |requests|
  {
    if requests == [] || |Encode(requests[0])| > n || !Acceptable(requests[0], big) then 0
    else 1 + Served(requests[1..], big, n - |Encode(requests[0])|)
  }

  // ----- Where the parser stands in a request -----

  /** The characters before argument i: the first line and the arguments so far. */
  function Before(args: seq<string>, i: nat): nat
    requires i <= |args|
  {
    |LengthLine('*', |args|)| + |Body(args[..i])|
  }

  lemma {:induction false} BodySplits(args: seq<string>, i: nat)
    requires i <= |args|
    ensures |Body(args[..i])| <= |Body(args)| && Body(args)[..|Body(args[..i])|] == Body(args[..i])
    decreases |args|
  {
    hide Bulk;
    if i == |args| {
      assert args[..i] == args;
    } else {
      BodySplits(args[..|args| - 1], i);
      assert args[..|args| - 1][..i] == args[..i];
    }
  }

  /** The next argument's bytes are where the parser stands. */
  lemma {:induction false} NextBulk(args: seq<string>, i: nat)
    requires i < |args|
    ensures Before(args, i) + |Bulk(args[i])| == Before(args, i + 1) <= |Encode(args)|
    ensures At(Encode(args), Before(args, i), Bulk(args[i]))
  {
    hide Bulk, LengthLine;
    var head, b := |LengthLine('*', |args|)|, Body(args);
    assert args[..i + 1][..i] == args[..i];
    BodySplits(args, i + 1);
    var m, n := |Body(args[..i])|, |Body(args[..i + 1])|;
    assert b[..n] == Body(args[..i]) + Bulk(args[i]);
    assert b[m..n] == b[..n][m..];
    assert Encode(args)[head + m..head + n] == b[m..n];
  }

  lemma AllBefore(args: seq<string>)
    ensures Before(args, |args|) == |Encode(args)|
  {
    assert args[..|args|] == args;
  }

  /** Fewer than two characters of a length line have arrived when the first n of the request have. */
  ghost predicate Edge(args: seq<string>, n: nat) {
    n == 1 || exists i :: 0 <= i < |args| && Before(args, i) <= n < Before(args, i) + 2
  }

  /** The same of a stream of requests: the places to cut it at which the parser looks behind the buffer. */
  ghost predicate EdgeAll(requests: seq<seq<string>>, n: nat) {
    && requests != []
    && if |Encode(requests[0])| <= n then EdgeAll(requests[1..], n - |Encode(requests[0])|) else Edge(requests[0], n)
  }

  /** The characters of a request up to the end of the length line of argument i. */
  function LineEnd(args: seq<string>, i: nat): nat
    requires i < |args|
  {
    Before(args, i) + |LengthLine('$', |args[i]|)|
  }

  /** A length line with a length that the parser refuses is whole in the first n characters of the request. */
  ghost predicate Refused(args: seq<string>, big: nat, n: nat) {
    || (!Fits(|args|, big) && Before(args, 0) <= n)
    || exists i :: 0 <= i < |args| && !Fits(|args[i]|, big) && LineEnd(args, i) <= n
  }

  /** The same of a stream of requests. */
  ghost predicate RefusedAll(requests: seq<seq<string>>, big: nat, n: nat) {
    && requests != []
    && (|| Refused(requests[0], big, n)
        || (|Encode(requests[0])| <= n && RefusedAll(requests[1..], big, n - |Encode(requests[0])|)))
  }

  /** The first n characters of the stream make the parser break, given what lies behind the buffer. */
  ghost predicate BreaksAt(requests: seq<seq<string>>, big: nat, beyond: string, n: nat) {
    (Stale(beyond) && EdgeAll(requests, n)) || RefusedAll(requests, big, n)
  }

  lemma LineWithin(args: seq<string>, i: nat)
    requires i < |args|
    ensures Before(args, i) + 4 <= LineEnd(args, i) && LineEnd(args, i) + 2 <= Before(args, i + 1)
  {
    hide LengthLine;
    BulkParts(args, i);
  }

  /** With the lines before it taken, only the length line of argument i matters while the argument arrives. */
  lemma {:induction false} RefusedAt(args: seq<string>, big: nat, i: nat, n: nat)
    requires i <= |args| && Taken(args, big, i) && Before(args, i) <= n && (i < |args| ==> n < Before(args, i + 1))
    ensures Refused(args, big, n) <==> i < |args| && LineEnd(args, i) <= n && !Fits(|args[i]|, big)
  {
    hide Before, Fits, LineEnd;
    forall j | i < j < |args|
      ensures LineEnd(args, j) > n
    {
      LineWithin(args, j);
      if i + 1 < j {
        BeforeAscends(args, i + 1, j);
      }
    }
  }

  /** The length line of argument i is refused. */
  lemma RefusedHere(args: seq<string>, big: nat, i: nat, n: nat)
    requires i < |args| && !Fits(|args[i]|, big) && LineEnd(args, i) <= n
    ensures Refused(args, big, n)
  {
    hide Fits, LineEnd;
  }

  lemma {:induction false} RefusedFirst(args: seq<string>, big: nat, n: nat)
    ensures n < Before(args, 0) ==> !Refused(args, big, n)
    ensures Before(args, 0) <= n && !Fits(|args|, big) ==> Refused(args, big, n)
  {
    hide Before, Fits, LineEnd;
    forall j | 0 <= j < |args|
      ensures LineEnd(args, j) > Before(args, 0)
    {
      LineWithin(args, j);
      if 0 < j {
        BeforeAscends(args, 0, j);
      }
    }
  }

  lemma {:induction false} BeforeAscends(args: seq<string>, i: nat, j: nat)
    requires i < j <= |args|
    ensures 4 <= Before(args, i) && Before(args, i) + 4 <= Before(args, j)
    decreases j
  {
    hide Body, LengthLine;
    NextBulk(args, j - 1);
    if i < j - 1 {
      BeforeAscends(args, i, j - 1);
    }
  }

  /** While argument i arrives, only its own length line matters. */
  lemma {:induction false} EdgeAt(args: seq<string>, i: nat, n: nat)
    requires i <= |args| && Before(args, i) <= n && (i < |args| ==> n < Before(args, i + 1))
    ensures Edge(args, n) <==> i < |args| && n < Before(args, i) + 2
  {
    hide Before, Encode;
    BeforeFits(args, i);
    if i > 0 {
      BeforeAscends(args, 0, i);
    }
    forall j | 0 <= j < |args| && j != i
      ensures !(Before(args, j) <= n < Before(args, j) + 2)
    {
      if j < i {
        BeforeAscends(args, j, i);
      } else if i + 1 < j {
        BeforeAscends(args, i + 1, j);
      }
    }
  }

  /** What matters while argument i arrives, its length line taken or not. */
  lemma ArgumentThere(args: seq<string>, big: nat, i: nat, n: nat, m: nat)
    requires i < |args| && i <= m <= i + 1 && Taken(args, big, m) && Before(args, i) <= n
    ensures Before(args, i) + 4 <= LineEnd(args, i) && LineEnd(args, i) + 2 <= Before(args, i + 1) <= |Encode(args)|
    ensures n < Before(args, i + 1) ==> (Edge(args, n) <==> n < Before(args, i) + 2)
    ensures n < Before(args, i + 1) ==> (Refused(args, big, n) <==> LineEnd(args, i) <= n && !Fits(|args[i]|, big))
    ensures LineEnd(args, i) <= n && !Fits(|args[i]|, big) ==> Refused(args, big, n)
    ensures m == i + 1 ==> Fits(|args[i]|, big)
  {
    hide Before, Encode, Edge, Refused, Fits, LineEnd;
    LineWithin(args, i);
    BeforeFits(args, i + 1);
    assert Taken(args, big, i);
    if n < Before(args, i + 1) {
      EdgeAt(args, i, n);
      RefusedAt(args, big, i, n);
    }
    if LineEnd(args, i) <= n && !Fits(|args[i]|, big) {
      RefusedHere(args, big, i, n);
    }
  }

  lemma {:induction false} EdgeFirst(args: seq<string>, n: nat)
    requires n < Before(args, 0)
    ensures Edge(args, n) <==> n == 1
  {
    hide Before;
    forall j | 0 < j < |args|
      ensures Before(args, 0) < Before(args, j)
    {
      BeforeAscends(args, 0, j);
    }
  }

  /** Between calls: how far the parser is in the request in progress, whose bytes the buffer starts with. */
  ghost predicate Standing(
    args: seq<string>, known: string -> bool, pos: nat, multibulklen: nat, bulklen: int, argc: nat, command: string,
    kept: seq<string>)
  {
    && argc <= |args|
    && (if multibulklen + argc == 0 then pos == 0 && bulklen == -1 else argc + multibulklen == |args|)
    && (multibulklen + argc > 0 && bulklen == -1 ==> pos == Before(args, argc))
    && (bulklen != -1 ==>
      multibulklen > 0 && bulklen == |args[argc]| && pos == Before(args, argc) + |LengthLine('$', |args[argc]|)|)
    && (argc > 0 ==> command == Lower(args[0]))
    && kept == Kept(known, args, argc)
  }

  /** Where the parser stands once it knows the length of an argument. */
  lemma InBulk(
    args: seq<string>, known: string -> bool, pos: nat, multibulklen: nat, bulklen: int, argc: nat, command: string,
    kept: seq<string>)
    requires Standing(args, known, pos, multibulklen, bulklen, argc, command, kept) && bulklen != -1
    ensures argc < |args| && multibulklen > 0 && bulklen == |args[argc]| && pos == LineEnd(args, argc)
    ensures argc + multibulklen == |args| && (argc > 0 ==> command == Lower(args[0]))
  {
    hide Kept, Before, Lower, LengthLine;
  }

  /** And once it has the argument. */
  lemma BulkTaken(
    args: seq<string>, known: string -> bool, pos: nat, multibulklen: nat, bulklen: int, argc: nat, command: string,
    kept: seq<string>, name: string, keptNext: seq<string>)
    requires Standing(args, known, pos, multibulklen, bulklen, argc, command, kept) && bulklen != -1
    requires argc < |args| && name == if argc == 0 then Lower(args[0]) else command
    requires keptNext == if argc == 1 || (argc > 0 && known(name)) then kept + [args[argc]] else kept
    ensures bulklen >= 0 && multibulklen > 0
    ensures Standing(args, known, pos + bulklen + 2, multibulklen - 1, -1, argc + 1, name, keptNext)
    ensures pos + bulklen + 2 == Before(args, argc + 1)
  {
    hide Before, Lower, LengthLine;
    BulkParts(args, argc);
  }

  /** One is a prefix of the other: the buffer holds the next characters of the stream. */
  predicate Agree(buffer: string, stream: string) {
    if |buffer| <= |stream| then stream[..|buffer|] == buffer else buffer[..|stream|] == stream
  }

  lemma AgreePart(buffer: string, stream: string, p: nat, part: string)
    requires Agree(buffer, stream) && At(stream, p, part) && p <= |buffer|
    ensures p + |part| <= |buffer| ==> At(buffer, p, part)
    ensures p + |part| > |buffer| ==> buffer[p..] == part[..|buffer| - p]
  {
    if p + |part| <= |buffer| {
      forall i | 0 <= i < |part|
        ensures buffer[p + i] == part[i]
      {
        AgreeAt(buffer, stream, p + i);
        assert stream[p + i] == stream[p..p + |part|][i];
      }
      assert buffer[p..p + |part|] == part;
    } else {
      forall i | 0 <= i < |buffer| - p
        ensures buffer[p + i] == part[i]
      {
        AgreeAt(buffer, stream, p + i);
        assert stream[p + i] == stream[p..p + |part|][i];
      }
      assert buffer[p..] == part[..|buffer| - p];
    }
  }

  lemma AgreeAt(buffer: string, stream: string, i: nat)
    requires Agree(buffer, stream) && i < |buffer| && i < |stream|
    ensures buffer[i] == stream[i]
  {
    if |buffer| <= |stream| {
      assert stream[..|buffer|][i] == stream[i];
    } else {
      assert buffer[..|stream|][i] == buffer[i];
    }
  }

  /** The first line of a request, whole or in part. */
  lemma FirstLine(args: seq<string>)
    ensures At(Encode(args), 0, LengthLine('*', |args|)) && Before(args, 0) == |LengthLine('*', |args|)|
  {
    assert args[..0] == [];
  }

  /** The three parts of an argument in the request. */
  lemma BulkParts(args: seq<string>, i: nat)
    requires i < |args|
    ensures var p, line := Before(args, i), LengthLine('$', |args[i]|);
      && At(Encode(args), p, line)
      && At(Encode(args), p + |line|, args[i] + [CR, LF])
      && p + |line| + |args[i]| + 2 == Before(args, i + 1) <= |Encode(args)|
  {
    hide LengthLine, Body, Encode, At;
    NextBulk(args, i);
    var line := LengthLine('$', |args[i]|);
    assert Bulk(args[i]) == line + (args[i] + [CR, LF]);
    AtSplit(Encode(args), Before(args, i), line, args[i] + [CR, LF]);
  }

  datatype Type = Unknown | Inline | Multi

  class ProxySession {
    const big: nat
    const known: string -> bool
    var buffer: string
    var reqtype: Type
    var pos: nat
    var multibulklen: nat
    var bulklen: int
    var argc: nat
    var command: string
    var redisCommands: seq<string>
    /** What has been handed on, whether the client was sent a protocol error, whether the parser left the buffer. */
    var handedOn: seq<Command>
    var failed: bool
    var overrun: bool
    /** The request in progress. */
    ghost var args: seq<string>

    predicate Broken()
      reads this
    {
      failed || overrun
    }

    ghost predicate Parsing()
      reads this
    {
      && (multibulklen + argc > 0 ==> Taken(args, big, if bulklen == -1 then argc else argc + 1)) && !Broken()
      && pos <= |buffer| && Agree(buffer, Encode(args))
      && Standing(args, known, pos, multibulklen, bulklen, argc, command, redisCommands)
    }

    constructor (big: nat, known: string -> bool)
      ensures this.big == big && this.known == known && buffer == "" && handedOn == [] && !Broken()
      ensures reqtype == Unknown && pos == 0 && multibulklen == 0 && bulklen == -1 && argc == 0 && redisCommands == []
    {
      this.big, this.known := big, known;
      buffer, reqtype, pos, multibulklen, bulklen, argc, command, redisCommands := "", Unknown, 0, 0, -1, 0, "", [];
      handedOn, failed, overrun := [], false, false;
    }

    /**
     * Read the line with the number of arguments, if it is all there, and refuse a number of 0 or above the limit.
     * With fewer than two characters of the line and a line end left over behind the buffer, it answers with an
     * error or runs past the buffer.
     */
    method ReadCount(beyond: string) returns (ok: bool)
      requires Parsing() && multibulklen + argc == 0
      modifies `pos, `multibulklen, `failed, `overrun
      ensures Broken() <==>
                || (|buffer| - old(pos) < 2 && Stale(beyond)) || (Before(args, 0) <= |buffer| && !Fits(|args|, big))
      ensures Broken() ==> !ok
      ensures !Broken() ==> Parsing() && (ok <==> multibulklen > 0) && (ok <==> Before(args, 0) <= |buffer|)
      ensures !ok && !Broken() ==> |buffer| < |Encode(args)| && pos == old(pos)
    {
      hide Stale, LengthLine, Encode, Before, Kept, Lower, Agree, At, ReadLine;
      FirstLine(args);
      AgreePart(buffer, Encode(args), 0, LengthLine('*', |args|));
      EncodeLonger(args);
      var line := ReadLine(buffer + beyond, |buffer|, pos, '*', big);
      if |LengthLine('*', |args|)| <= |buffer| {
        WholeLine(buffer, beyond, 0, '*', '*', |args|, big);
      } else {
        PartOfLine(buffer, beyond, 0, '*', |args|, big);
      }
      failed, ok := line.ProtocolError?, line.Length?;
      if ok {
        pos, multibulklen := line.next, line.value;
        overrun := pos > |buffer|;
        ok := !overrun;
      }
    }

    /** Read the line with the length of the next argument, if it is all there, with the same ways to fail. */
    method ReadBulkLength(beyond: string) returns (ok: bool)
      requires Parsing() && multibulklen > 0 && bulklen == -1
      modifies `pos, `bulklen, `failed, `overrun
      ensures Broken() <==>
                || (|buffer| - old(pos) < 2 && Stale(beyond))
                || (LineEnd(args, argc) <= |buffer| && !Fits(|args[argc]|, big))
      ensures Broken() ==> !ok
      ensures !Broken() ==> Parsing() && (ok <==> bulklen != -1) && (ok <==> LineEnd(args, argc) <= |buffer|)
      ensures ok ==> pos >= Before(args, argc) + 2
      ensures !ok && !Broken() ==> |buffer| < Before(args, argc + 1) <= |Encode(args)| && pos == old(pos)
    {
      hide Stale, LengthLine, Encode, Before, Kept, Lower, Agree, At, ReadLine;
      ghost var i := argc;
      BulkParts(args, i);
      AgreePart(buffer, Encode(args), pos, LengthLine('$', |args[i]|));
      var line := ReadLine(buffer + beyond, |buffer|, pos, '$', big);
      if pos + |LengthLine('$', |args[i]|)| <= |buffer| {
        WholeLine(buffer, beyond, pos, '$', '$', |args[i]|, big);
      } else {
        PartOfLine(buffer, beyond, pos, '$', |args[i]|, big);
      }
      failed, ok := line.ProtocolError?, line.Length?;
      if ok {
        pos, bulklen := line.next, line.value;
        overrun := pos > |buffer|;
        ok := !overrun;
      }
    }

    /** Take the next argument, if it is all there. */
    method ReadBulk() returns (ok: bool)
      requires Parsing() && bulklen != -1
      modifies `pos, `bulklen, `multibulklen, `argc, `command, `redisCommands
      ensures Parsing()
      ensures !ok ==> |buffer| < |Encode(args)| && multibulklen == old(multibulklen)
      ensures !ok ==> argc < |args| && Before(args, argc) + 2 <= |buffer| < Before(args, argc + 1)
      ensures ok ==> bulklen == -1 && pos == Before(args, argc) && argc == old(argc) + 1 && command == Lower(args[0])
      ensures ok ==> multibulklen == old(multibulklen) - 1
    {
      hide LengthLine, Encode, Lower, Agree, At, Before, Kept, Taken, Standing;
      ghost var i := argc;
      InBulk(args, known, pos, multibulklen, bulklen, argc, command, redisCommands);
      ghost var name := if i == 0 then Lower(args[0]) else command;
      ghost var kept := if i == 1 || (i > 0 && known(name)) then redisCommands + [args[i]] else redisCommands;
      BulkTaken(args, known, pos, multibulklen, bulklen, argc, command, redisCommands, name, kept);
      BulkParts(args, i);
      AgreePart(buffer, Encode(args), pos, args[i] + [CR, LF]);
      if |buffer| - pos < bulklen + 2 {
        return false;
      }
      Argument(buffer, pos, args[i]);
      var bulk := buffer[pos..pos + bulklen];
      assert bulk == args[i] && i + 1 > 0 && multibulklen - 1 + (i + 1) > 0;
      argc := argc + 1;
      if argc == 1 {
        command := Lower(bulk);
      } else if argc == 2 || known(command) {
        redisCommands := redisCommands + [bulk];
      }
      pos, bulklen, multibulklen := pos + bulklen + 2, -1, multibulklen - 1;
      return true;
    }

    /** One turn of the loop: the length of the next argument, unless it is known, and the argument. */
    method NextArgument(beyond: string) returns (ok: bool)
      requires Parsing() && multibulklen > 0
      modifies this
      ensures buffer == old(buffer) && args == old(args) && handedOn == old(handedOn) && reqtype == old(reqtype)
      ensures ok ==> Parsing() && multibulklen == old(multibulklen) - 1 && multibulklen + argc > 0
      ensures !ok ==> (Broken() <==> (Stale(beyond) && Edge(args, |buffer|)) || Refused(args, big, |buffer|))
      ensures !ok && !Broken() ==> Parsing() && multibulklen > 0 && |buffer| < |Encode(args)|
    {
      hide Stale, LengthLine, Encode, Lower, Agree, At, Before, Kept, Edge, Taken, Refused, Fits, LineEnd;
      ArgumentThere(args, big, argc, |buffer|, if bulklen == -1 then argc else argc + 1);
      if bulklen == -1 {
        var read := ReadBulkLength(beyond);
        if !read {
          return false;
        }
      }
      ok := ReadBulk();
    }

    /**
     * Parse as much of the request in progress as has arrived. It is done exactly if all of it has; then its
     * bytes, and no others, leave the buffer. `beyond` is what lies in memory after the buffer: parsing goes
     * wrong exactly when a line end is left over there and fewer than two characters of a length line have come,
     * or when a length line has come whose length is refused.
     */
    method ProcessMultibulkBuffer(beyond: string) returns (ok: bool, raw: string)
      requires Parsing() && |buffer| > 0 && (multibulklen == 0 ==> argc == 0)
      modifies this
      ensures args == old(args) && handedOn == old(handedOn) && reqtype == old(reqtype)
      ensures Broken() <==> (Stale(beyond) && Edge(args, |old(buffer)|)) || Refused(args, big, |old(buffer)|)
      ensures Broken() ==> !ok
      ensures !Broken() ==> (ok <==> |Encode(args)| <= |old(buffer)|) && (ok ==> Acceptable(args, big) && args != [])
      ensures ok ==> raw == Encode(args) && old(buffer) == raw + buffer && pos == 0 && multibulklen == 0
      ensures ok ==> command == Lower(args[0]) && redisCommands == Kept(known, args, |args|)
      ensures !ok && !Broken() ==> Parsing() && buffer == old(buffer) && (multibulklen == 0 ==> argc == 0)
    {
      hide Stale, LengthLine, Encode, Lower, Agree, At, Before, Kept, Edge, Taken, Refused, Fits, LineEnd;
      ok, raw := false, "";
      BeforeFits(args, argc);
      if multibulklen == 0 {
        if |buffer| < Before(args, 0) {
          EdgeFirst(args, |buffer|);
        }
        RefusedFirst(args, big, |buffer|);
        var counted := ReadCount(beyond);
        if !counted {
          return;
        }
      }
      while multibulklen > 0
        invariant Parsing() && multibulklen + argc > 0 && buffer == old(buffer)
        invariant args == old(args) && handedOn == old(handedOn) && reqtype == old(reqtype)
        decreases multibulklen
      {
        var taken := NextArgument(beyond);
        if !taken {
          return;
        }
      }
      AllBefore(args);
      EdgeAt(args, argc, |buffer|);
      RefusedAt(args, big, argc, |buffer|);
      assert args != [];
      AgreeWhole(buffer, Encode(args));
      raw := buffer[..pos];
      buffer := buffer[pos..];
      pos := 0;
      ok := true;
    }

    /** Between callbacks, with these requests still to be handed on. */
    ghost predicate Session(remaining: seq<seq<string>>)
      reads this
    {
      && !Broken() && buffer <= EncodeAll(remaining)
      && (multibulklen == 0 ==> argc == 0)
      && (if remaining == [] then Fresh() else args == remaining[0] && Parsing() && (reqtype == Unknown ==> Fresh()))
      && reqtype != Inline
    }

    /** Between two requests. */
    ghost predicate Fresh()
      reads this
    {
      reqtype == Unknown && pos == 0 && multibulklen == 0 && bulklen == -1 && argc == 0 && redisCommands == []
    }

    /** Between requests the next one may be the request in progress. */
    ghost method Begin(remaining: seq<seq<string>>)
      requires Fresh() && !Broken() && buffer <= EncodeAll(remaining)
      modifies `args
      ensures Session(remaining)
    {
      hide LengthLine, Encode, Lower, At, Before, Kept;
      if remaining != [] {
        args := remaining[0];
        AgreeFirst(buffer, remaining);
        NoneKept(known, args);
      }
    }

    /** Hand the request on, and forget it. */
    method HandOn(raw: string)
      requires pos == 0
      modifies this
      ensures Fresh() && buffer == old(buffer) && Broken() == old(Broken()) && args == old(args)
      ensures handedOn == old(handedOn) + [Command(old(command),
                if !known(old(command)) && old(redisCommands) == [] then [old(command)] else old(redisCommands), raw)]
    {
      if known(command) {
        handedOn := handedOn + [Command(command, redisCommands, raw)];
      } else {
        assert redisCommands == [] ==> redisCommands + [command] == [command];
        if redisCommands == [] {
          redisCommands := redisCommands + [command];
        }
        handedOn := handedOn + [Command(command, redisCommands, raw)];
      }
      reqtype, argc, multibulklen, bulklen, redisCommands := Unknown, 0, 0, -1, [];
    }

    /** One turn: hand on the request in progress, if all of it has arrived. */
    method OneRequest(beyond: string, ghost remaining: seq<seq<string>>) returns (ok: bool)
      requires |buffer| > 0 && Session(remaining)
      modifies this
      ensures remaining != []
      ensures Broken() <==>
        (Stale(beyond) && Edge(remaining[0], |old(buffer)|)) || Refused(remaining[0], big, |old(buffer)|)
      ensures Broken() ==> !ok
      ensures !Broken() ==> (ok <==> |Encode(remaining[0])| <= |old(buffer)|)
      ensures ok ==> Acceptable(remaining[0], big)
      ensures ok ==> Session(remaining[1..]) && old(buffer) == Encode(remaining[0]) + buffer
      ensures ok ==> handedOn == old(handedOn) + [HandedOn(known, remaining[0])]
      ensures !ok ==> handedOn == old(handedOn)
      ensures !ok && !Broken() ==> Session(remaining) && buffer == old(buffer)
    {
      hide Stale, Encode, Lower, Before, Kept, Agree, Edge, Refused, Taken;
      NextArrives(buffer, remaining);
      if reqtype == Unknown {
        reqtype := if buffer[0] == '*' then Multi else Inline;
      }
      var raw;
      ok, raw := ProcessMultibulkBuffer(beyond);
      if ok {
        RestAgrees(raw, buffer, remaining);
        HandOn(raw);
        Begin(remaining[1..]);
      }
    }

    /**
     * More characters have arrived: every request that is now complete is handed on, in order, with exactly
     * its own bytes, and the rest waits; except that parsing breaks exactly when a line end is left over behind
     * the buffer and the stream is cut where the parser looks there, or when a length that it refuses has come.
     */
    method ProxyReadCallback(chunk: string, beyond: string, ghost remaining: seq<seq<string>>) returns (ghost k: nat)
      requires Session(remaining) && buffer + chunk <= EncodeAll(remaining)
      modifies this
      ensures Broken() <==> BreaksAt(remaining, big, beyond, |old(buffer) + chunk|)
      ensures k == Served(remaining, big, |old(buffer) + chunk|) && (!Broken() ==> Session(remaining[k..]))
      ensures handedOn == old(handedOn) + HandedOnAll(known, remaining[..k])
      ensures !Broken() ==> old(buffer) + chunk == EncodeAll(remaining[..k]) + buffer
    {
      hide Stale, Encode, Lower, Before, Kept, Acceptable, Agree, HandedOn, HandedOnAll, EncodeAll, Served, Standing,
        Edge, Refused, BreaksAt;
      MoreArrives(buffer, chunk, remaining);
      buffer := buffer + chunk;
      k := 0;
      ghost var whole := buffer;
      NoneYet(known, remaining);
      while |buffer| > 0
        invariant k <= |remaining| && Session(remaining[k..])
        invariant handedOn == old(handedOn) + HandedOnAll(known, remaining[..k])
        invariant whole == EncodeAll(remaining[..k]) + buffer
        invariant Served(remaining, big, |whole|) == k + Served(remaining[k..], big, |buffer|)
        invariant BreaksAt(remaining, big, beyond, |whole|) <==> BreaksAt(remaining[k..], big, beyond, |buffer|)
        decreases |buffer|
      {
        ghost var n := |buffer|;
        var ok := OneRequest(beyond, remaining[k..]);
        if !ok {
          NoneWhole(remaining[k..], big, beyond, n);
          return;
        }
        Turned(known, remaining, big, k, n);
        BreaksNext(remaining[k..], big, beyond, n);
        Regroup(EncodeAll(remaining[..k]), Encode(remaining[k]), buffer);
        k := k + 1;
      }
      NothingWhole(remaining[k..], big, beyond);
    }
  }

  /** What one request handed on does to the counts and to what has been handed on. */
  lemma Turned(known: string -> bool, remaining: seq<seq<string>>, big: nat, k: nat, n: nat)
    requires k < |remaining| && |Encode(remaining[k])| <= n && Acceptable(remaining[k], big)
    ensures Served(remaining[k..], big, n) == 1 + Served(remaining[k + 1..], big, n - |Encode(remaining[k])|)
    ensures EncodeAll(remaining[..k + 1]) == EncodeAll(remaining[..k]) + Encode(remaining[k])
    ensures HandedOnAll(known, remaining[..k + 1]) ==
      HandedOnAll(known, remaining[..k]) + [HandedOn(known, remaining[k])]
    ensures remaining[k..][1..] == remaining[k + 1..] && remaining[k..][0] == remaining[k]
  {
    hide Encode, EncodeAll, Served, HandedOnAll, HandedOn, Acceptable;
    CountNext(remaining, big, k, n);
    EncodeNext(remaining, k);
    HandedOnNext(known, remaining, k);
  }

  lemma NoneYet(known: string -> bool, remaining: seq<seq<string>>)
    ensures remaining[0..] == remaining && remaining[..0] == []
    ensures HandedOnAll(known, []) == [] && EncodeAll([]) == ""
  {
  }

  lemma AgreeFirst(buffer: string, remaining: seq<seq<string>>)
    requires remaining != [] && buffer <= EncodeAll(remaining)
    ensures Agree(buffer, Encode(remaining[0]))
  {
    hide Encode;
    var e, all := Encode(remaining[0]), EncodeAll(remaining);
    assert all[..|e|] == e;
    if |buffer| <= |e| {
      assert e[..|buffer|] == all[..|buffer|];
    } else {
      assert buffer[..|e|] == all[..|buffer|][..|e|];
    }
  }

  lemma NoneKept(known: string -> bool, args: seq<string>)
    ensures Kept(known, args, 0) == []
  {
  }

  lemma MoreArrives(buffer: string, chunk: string, remaining: seq<seq<string>>)
    requires buffer + chunk <= EncodeAll(remaining)
    ensures remaining != [] ==> Agree(buffer + chunk, Encode(remaining[0]))
  {
    if remaining != [] {
      AgreeFirst(buffer + chunk, remaining);
    }
  }

  lemma NextArrives(buffer: string, remaining: seq<seq<string>>)
    requires buffer != "" && buffer <= EncodeAll(remaining)
    ensures remaining != [] && buffer[0] == '*'
  {
    assert EncodeAll(remaining)[0] == Encode(remaining[0])[0];
  }

  lemma NoneWhole(remaining: seq<seq<string>>, big: nat, beyond: string, n: nat)
    requires remaining != []
    requires n < |Encode(remaining[0])| || (Stale(beyond) && Edge(remaining[0], n)) || Refused(remaining[0], big, n)
    ensures Served(remaining, big, n) == 0
    ensures BreaksAt(remaining, big, beyond, n)
      <==> (Stale(beyond) && Edge(remaining[0], n)) || Refused(remaining[0], big, n)
  {
    hide Edge, Encode, Refused, Acceptable, Stale;
    if |Encode(remaining[0])| <= n {
      EdgeWhole(remaining[0], n);
      RefusedWhole(remaining[0], big, n);
    }
  }

  /** A request that is whole is at no edge. */
  lemma EdgeWhole(args: seq<string>, n: nat)
    requires |Encode(args)| <= n
    ensures !Edge(args, n)
  {
    hide Edge, Before;
    AllBefore(args);
    EdgeAt(args, |args|, n);
  }

  /** One that is whole is refused exactly if it is not acceptable. */
  lemma RefusedWhole(args: seq<string>, big: nat, n: nat)
    requires |Encode(args)| <= n
    ensures Refused(args, big, n) <==> !Acceptable(args, big)
  {
    hide Refused, Fits, LineEnd, Before, Encode;
    AllBefore(args);
    BeforeFits(args, |args|);
    RefusedFirst(args, big, n);
    if Taken(args, big, |args|) {
      RefusedAt(args, big, |args|, n);
    } else if Fits(|args|, big) {
      var i :| 0 <= i < |args| && !Fits(|args[i]|, big);
      LineWithin(args, i);
      BeforeFits(args, i + 1);
      RefusedHere(args, big, i, n);
    } else {
      BeforeFits(args, 0);
      BeforeOrder(args);
    }
  }

  lemma BeforeOrder(args: seq<string>)
    ensures Before(args, 0) <= Before(args, |args|)
  {
    hide Before;
    if args != [] {
      BeforeAscends(args, 0, |args|);
    }
  }

  lemma BreaksNext(remaining: seq<seq<string>>, big: nat, beyond: string, n: nat)
    requires remaining != [] && |Encode(remaining[0])| <= n && Acceptable(remaining[0], big)
    ensures BreaksAt(remaining, big, beyond, n) <==> BreaksAt(remaining[1..], big, beyond, n - |Encode(remaining[0])|)
  {
    hide Edge, Encode, Refused, Acceptable, Stale;
    RefusedWhole(remaining[0], big, n);
  }

  lemma BeforeFits(args: seq<string>, i: nat)
    requires i <= |args|
    ensures Before(args, i) <= |Encode(args)| && Before(args, 0) >= 4
  {
    BodySplits(args, i);
  }

  lemma NothingWhole(remaining: seq<seq<string>>, big: nat, beyond: string)
    ensures Served(remaining, big, 0) == 0 && !BreaksAt(remaining, big, beyond, 0)
  {
    hide Encode, LengthLine, Body, Refused, Before, Edge;
    if remaining != [] {
      BeforeFits(remaining[0], 0);
      EdgeFirst(remaining[0], 0);
      RefusedFirst(remaining[0], big, 0);
    }
  }

  lemma CountNext(remaining: seq<seq<string>>, big: nat, k: nat, n: nat)
    requires k < |remaining| && |Encode(remaining[k])| <= n && Acceptable(remaining[k], big)
    ensures Served(remaining[k..], big, n) == 1 + Served(remaining[k + 1..], big, n - |Encode(remaining[k])|)
  {
    hide Acceptable, Encode;
    assert remaining[k..][1..] == remaining[k + 1..];
  }

  lemma {:induction false} EncodeNext(requests: seq<seq<string>>, k: nat)
    requires k < |requests|
    ensures EncodeAll(requests[..k + 1]) == EncodeAll(requests[..k]) + Encode(requests[k])
  {
    hide Encode;
    if k == 0 {
      assert requests[..1][1..] == [] && requests[..0] == [];
    } else {
      EncodeNext(requests[1..], k - 1);
      assert requests[..k + 1][1..] == requests[1..][..k] && requests[..k][1..] == requests[1..][..k - 1];
    }
  }

  lemma RestAgrees(raw: string, buffer: string, remaining: seq<seq<string>>)
    requires remaining != [] && raw == Encode(remaining[0]) && raw + buffer <= EncodeAll(remaining)
    ensures buffer <= EncodeAll(remaining[1..])
  {
    hide Encode;
    var all := EncodeAll(remaining);
    assert all[|raw|..] == EncodeAll(remaining[1..]);
    assert buffer == (raw + buffer)[|raw|..] == all[..|raw + buffer|][|raw|..];
  }

  lemma HandedOnNext(known: string -> bool, requests: seq<seq<string>>, k: nat)
    requires k < |requests|
    ensures HandedOnAll(known, requests[..k + 1]) == HandedOnAll(known, requests[..k]) + [HandedOn(known, requests[k])]
  {
    hide HandedOn;
  }

  lemma AgreeWhole(buffer: string, stream: string)
    requires Agree(buffer, stream) && |stream| <= |buffer|
    ensures buffer[..|stream|] == stream && buffer == stream + buffer[|stream|..]
  {
  }

  lemma EncodeLonger(args: seq<string>)
    ensures |LengthLine('*', |args|)| <= |Encode(args)|
  {
  }

  lemma Argument(buffer: string, p: nat, arg: string)
    requires At(buffer, p, arg + [CR, LF])
    ensures p + |arg| <= |buffer| && buffer[p..p + |arg|] == arg
  {
    AtSplit(buffer, p, arg, [CR, LF]);
  }

  // ----- Whole streams in chunks -----

  lemma {:induction false} EncodeSplit(requests: seq<seq<string>>, k: nat)
    requires k <= |requests|
    ensures EncodeAll(requests) == EncodeAll(requests[..k]) + EncodeAll(requests[k..])
  {
    hide Encode;
    if k == 0 {
      assert requests[..0] == [] && requests[0..] == requests;
    } else {
      EncodeSplit(requests[1..], k - 1);
      assert requests[1..][..k - 1] == requests[..k][1..] && requests[1..][k - 1..] == requests[k..];
    }
  }

  lemma {:induction false} CountSplit(requests: seq<seq<string>>, big: nat, beyond: string, k: nat, n: nat)
    requires k <= |requests| && forall r :: 0 <= r < k ==> Acceptable(requests[r], big)
    ensures Served(requests, big, |EncodeAll(requests[..k])| + n) == k + Served(requests[k..], big, n)
    ensures BreaksAt(requests, big, beyond, |EncodeAll(requests[..k])| + n) <==> BreaksAt(requests[k..], big, beyond, n)
  {
    hide Encode, Edge, Acceptable, BreaksAt;
    if k == 0 {
      assert requests[..0] == [] && requests[0..] == requests;
    } else {
      CountSplit(requests[1..], big, beyond, k - 1, n);
      assert requests[1..][..k - 1] == requests[..k][1..] && requests[1..][k - 1..] == requests[k..];
      BreaksNext(requests, big, beyond, |EncodeAll(requests[..k])| + n);
    }
  }

  lemma {:induction false} ServedAcceptable(requests: seq<seq<string>>, big: nat, n: nat)
    ensures forall r :: 0 <= r < Served(requests, big, n) ==> Acceptable(requests[r], big)
  {
    hide Encode, Acceptable;
    if Served(requests, big, n) > 0 {
      ServedAcceptable(requests[1..], big, n - |Encode(requests[0])|);
    }
  }

  lemma {:induction false} JoinPrefix(chunks: seq<string>, i: nat)
    requires i <= |chunks|
    ensures Flatten(chunks[..i]) <= Flatten(chunks)
    decreases |chunks|
  {
    if i < |chunks| {
      JoinPrefix(chunks[..|chunks| - 1], i);
      assert chunks[..|chunks| - 1][..i] == chunks[..i];
    } else {
      assert chunks[..i] == chunks;
    }
  }

  lemma HandedOnSplit(known: string -> bool, requests: seq<seq<string>>, k: nat, j: nat)
    requires k + j <= |requests|
    ensures HandedOnAll(known, requests[..k]) + HandedOnAll(known, requests[k..][..j]) ==
      HandedOnAll(known, requests[..k + j])
  {
    hide HandedOn;
  }

  /** What arrives next fits the requests that remain. */
  lemma StreamGoesOn(requests: seq<seq<string>>, k: nat, received: string, buffer: string, chunk: string)
    requires k <= |requests| && received == EncodeAll(requests[..k]) + buffer && received + chunk <= EncodeAll(requests)
    ensures buffer + chunk <= EncodeAll(requests[k..])
  {
    hide EncodeAll;
    EncodeSplit(requests, k);
    Regroup(EncodeAll(requests[..k]), buffer, chunk);
    PrefixTail(EncodeAll(requests[..k]), buffer + chunk, EncodeAll(requests[k..]));
  }

  lemma PrefixTail(head: string, x: string, tail: string)
    requires head + x <= head + tail
    ensures x <= tail
  {
    forall i | 0 <= i < |x|
      ensures x[i] == tail[i]
    {
      assert (head + x)[|head| + i] == (head + tail)[|head| + i];
    }
  }

  /** With k requests handed on and n characters there, the next j are handed on. */
  lemma ChunkTaken(known: string -> bool, requests: seq<seq<string>>, big: nat, beyond: string, k: nat, n: nat, j: nat)
    requires k <= |requests| && j == Served(requests[k..], big, n)
    requires forall r :: 0 <= r < k ==> Acceptable(requests[r], big)
    ensures k + j <= |requests| && requests[k..][j..] == requests[k + j..]
    ensures Served(requests, big, |EncodeAll(requests[..k])| + n) == k + j
    ensures BreaksAt(requests, big, beyond, |EncodeAll(requests[..k])| + n) <==> BreaksAt(requests[k..], big, beyond, n)
    ensures HandedOnAll(known, requests[..k]) + HandedOnAll(known, requests[k..][..j]) ==
      HandedOnAll(known, requests[..k + j])
    ensures EncodeAll(requests[..k + j]) == EncodeAll(requests[..k]) + EncodeAll(requests[k..][..j])
    ensures forall r :: 0 <= r < k + j ==> Acceptable(requests[r], big)
  {
    hide HandedOn, EncodeAll, Served, BreaksAt, Acceptable;
    CountSplit(requests, big, beyond, k, n);
    ServedAcceptable(requests[k..], big, n);
    HandedOnSplit(known, requests, k, j);
    EncodeSplit(requests[..k + j], k);
    assert requests[..k + j][..k] == requests[..k] && requests[..k + j][k..] == requests[k..][..j];
    forall r | k <= r < k + j
      ensures Acceptable(requests[r], big)
    {
      assert requests[r] == requests[k..][r - k];
    }
  }

  /** With the chunks up to i, and what lies behind the buffer then, the parser breaks. */
  ghost predicate BadCut(chunks: seq<string>, beyond: seq<string>, requests: seq<seq<string>>, big: nat, i: nat)
    requires i < |chunks| == |beyond|
  {
    BreaksAt(requests, big, beyond[i], |Flatten(chunks[..i + 1])|)
  }

  /**
   * A stream of any requests, cut into any chunks: exactly the requests that have arrived whole, up to the first
   * one refused, have been handed on, in order, whatever the cuts. Parsing breaks at the first chunk that ends in a
   * bad cut or brings a length that is refused, and only there.
   */
  method Feed(session: ProxySession, chunks: seq<string>, beyond: seq<string>, ghost requests: seq<seq<string>>)
    returns (fed: nat)
    requires session.Fresh() && !session.Broken() && session.buffer == "" && session.handedOn == []
    requires Flatten(chunks) <= EncodeAll(requests) && |beyond| == |chunks|
    modifies session
    ensures fed <= |chunks| && (fed < |chunks| ==> session.Broken())
    ensures session.Broken() <==> exists i :: 0 <= i < |chunks| && BadCut(chunks, beyond, requests, session.big, i)
    ensures session.Broken() ==> fed > 0 && BadCut(chunks, beyond, requests, session.big, fed - 1)
    ensures forall i :: 0 <= i < fed - 1 ==> !BadCut(chunks, beyond, requests, session.big, i)
    ensures session.handedOn
      == HandedOnAll(session.known, requests[..Served(requests, session.big, |Flatten(chunks[..fed])|)])
    ensures |session.handedOn| == Served(requests, session.big, |Flatten(chunks[..fed])|)
    ensures forall r :: 0 <= r < |session.handedOn| ==>
      && requests[r] != [] && requests[r][0] != "" && Named(session.known, requests[r], session.handedOn[r])
  {
    hide Stale, Acceptable, HandedOn, HandedOnAll, EncodeAll, Served, Flatten, Encode, Standing, Edge, BreaksAt;
    Nothing(session.known, requests);
    session.Begin(requests);
    ghost var k := 0;
    ghost var received := "";
    assert chunks[..0] == [];
    NothingJoined();
    NothingWhole(requests, session.big, "");
    fed := 0;
    while fed < |chunks| && !session.Broken()
      invariant fed <= |chunks| && k <= |requests|
      invariant received == Flatten(chunks[..fed]) && k == Served(requests, session.big, |received|)
      invariant forall r :: 0 <= r < k ==> Acceptable(requests[r], session.big)
      invariant !session.Broken()
        ==> session.Session(requests[k..]) && received == EncodeAll(requests[..k]) + session.buffer
      invariant session.Broken() ==> fed > 0 && BadCut(chunks, beyond, requests, session.big, fed - 1)
      invariant forall i ::
        0 <= i < fed && (session.Broken() ==> i < fed - 1) ==> !BadCut(chunks, beyond, requests, session.big, i)
      invariant session.handedOn == HandedOnAll(session.known, requests[..k])
      decreases |chunks| - fed
    {
      JoinPrefix(chunks, fed + 1);
      JoinNext(chunks, fed);
      StreamGoesOn(requests, k, received, session.buffer, chunks[fed]);
      ghost var n := |session.buffer + chunks[fed]|;
      Regroup(EncodeAll(requests[..k]), session.buffer, chunks[fed]);
      ghost var j := session.ProxyReadCallback(chunks[fed], beyond[fed], requests[k..]);
      ChunkTaken(session.known, requests, session.big, beyond[fed], k, n, j);
      if !session.Broken() {
        Regroup(EncodeAll(requests[..k]), EncodeAll(requests[k..][..j]), session.buffer);
      }
      received := received + chunks[fed];
      k := k + j;
      fed := fed + 1;
    }
    AllNamed(session.known, requests, session.big, k);
  }

  lemma AllNamed(known: string -> bool, requests: seq<seq<string>>, big: nat, k: nat)
    requires k <= |requests| && forall r :: 0 <= r < k ==> Acceptable(requests[r], big)
    ensures |HandedOnAll(known, requests[..k])| == k
    ensures forall r :: 0 <= r < k ==>
      && requests[r] != [] && requests[r][0] != ""
      && Named(known, requests[r], HandedOnAll(known, requests[..k])[r])
  {
    hide HandedOn, Named, Encode;
    forall r | 0 <= r < k
      ensures requests[r] != [] && requests[r][0] != ""
      ensures Named(known, requests[r], HandedOn(known, requests[r]))
    {
      assert Acceptable(requests[r], big);
      HandedOnIsNamed(known, requests[r]);
    }
  }

  lemma Nothing(known: string -> bool, requests: seq<seq<string>>)
    ensures HandedOnAll(known, requests[..0]) == [] && EncodeAll(requests[..0]) == "" && requests[0..] == requests
    ensures "" <= EncodeAll(requests)
  {
  }

  lemma NothingJoined()
    ensures Flatten([]) == ""
  {
  }

  lemma JoinNext(chunks: seq<string>, i: nat)
    requires i < |chunks|
    ensures Flatten(chunks[..i + 1]) == Flatten(chunks[..i]) + chunks[i]
  {
    assert chunks[..i + 1][..i] == chunks[..i];
  }

  /** One character of a request and a line end left over behind it: a protocol error, though nothing is wrong. */
  lemma StaleLineEnd(big: nat)
    ensures Stale([CR]) && ReadLine(['*'] + [CR], 1, 0, '*', big) == ProtocolError
  {
    var m := ['*'] + [CR];
    assert m[0] == '*' && m[1] == CR;
    assert Strchr(m, 1, CR) == Some(1);
    assert SkipSpace(m, 1) == 2;
    assert ReadDigits(m, 2, 0) == (0, 2);
  }
}
