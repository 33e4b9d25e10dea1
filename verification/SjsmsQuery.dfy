/**
 The text query that the grosscheck client sends in one datagram, and how the server reads it
 back. src/proto_sjsms.c, src/worker_sjsms.c and src/worker.c.
 */
module SjsmsQuery {
  import opened Options

  const MAXLINELEN: nat := 1024
  const HEADER: nat := 4    // message type and length, two 16-bit numbers
  const NL: char := '\n'
  const NUL: char := '\0'

  datatype Tuple = Tuple(
    sender: Option<string>,
    recipient: Option<string>,
    clientAddress: Option<string>,
    heloName: Option<string>)

  const NO_FIELDS: Tuple := Tuple(None, None, None, None)

  // The sending side.

  function FullText(sender: string, rcpt: string, caddr: string, helo: Option<string>): string {
    "sender=" + sender + "\nrecipient=" + rcpt + "\nclient_address=" + caddr
    + (if helo.Some? then "\nhelo_name=" else "") + (if helo.Some? then helo.value else "") + "\n\n"
  }

  function Clip<T>(s: seq<T>, n: nat): seq<T> {
    if |s| <= n then s else s[..n]
  }

  /** buildquerystr: snprintf keeps one character of its limit for the terminator. */
  function BuildQueryStr(sender: string, rcpt: string, caddr: string, helo: Option<string>): string {
    Clip(FullText(sender, rcpt, caddr, helo), MAXLINELEN - 2)
  }

  /** The text in the datagram of sendquerystr. */
  function SentText(query: string): string {
    Clip(query, MAXLINELEN)
  }

  /** The message after recvfrom, copied into a zeroed buffer. */
  function Buffer(sent: string): (b: seq<char>)
    ensures |b| == MAXLINELEN
  {
    var got := Clip(sent, MAXLINELEN - HEADER);
    got + seq(MAXLINELEN - |got|, _ => NUL)
  }

  /** A C string: everything before the first NUL. */
  function CString(b: seq<char>): string {
    if b == [] || b[0] == NUL then [] else [b[0]] + CString(b[1..])
  }

  /** recvquerystr. */
  function RecvQueryStr(buffer: seq<char>): string {
    CString(Clip(buffer, MAXLINELEN - 1))
  }

  // The receiving side.

  /** try_match. */
  function TryMatch(matcher: string, s: string): Option<string> {
    if matcher <= s then Some(s[|matcher|..]) else None
  }

  /** process_parameter; an unknown parameter leaves the tuple alone. */
  function ProcessParameter(t: Tuple, s: string): Tuple {
    var sender := TryMatch("sender=", s);
    var recipient := TryMatch("recipient=", s);
    var address := TryMatch("client_address=", s);
    var helo := TryMatch("helo_name=", s);
    if sender.Some? then t.(sender := sender)
    else if recipient.Some? then t.(recipient := recipient)
    else if address.Some? then t.(clientAddress := address)
    else if helo.Some? then t.(heloName := helo)
    else t
  }

  predicate CheckRequest(t: Tuple) {
    t.sender.Some? && t.recipient.Some? && t.clientAddress.Some?
  }

  /** The position of a character, or the length. */
  function IndexOf(s: string, c: char): (i: nat)
    ensures i <= |s| && (i < |s| ==> s[i] == c)
  {
    if s == [] || s[0] == c then 0 else 1 + IndexOf(s[1..], c)
  }

  /** The lines that end in a newline, up to the first empty one. */
  function Lines(s: string): seq<string> {
    var i := IndexOf(s, NL);
    if i == |s| || i == 0 then [] else [s[..i]] + Lines(s[i + 1..])
  }

  function Fold<T>(process: (T, string) -> T, t: T, lines: seq<string>): T
    decreases |lines|
  {
    if lines == [] then t else Fold(process, process(t, lines[0]), lines[1..])
  }

  function Parse(s: string): Option<Tuple> {
    var t := Fold(ProcessParameter, NO_FIELDS, Lines(s));
    if CheckRequest(t) then Some(t) else None
  }

  /** strchr in a terminated buffer; -1 stands for NULL. */
  method StrChr(a: array<char>, start: nat, c: char) returns (r: int)
    requires start < a.Length && a[a.Length - 1] == NUL && c != NUL
    requires forall k :: start <= k < a.Length - 1 ==> a[k] != NUL
    ensures r == -1 || start <= r < a.Length - 1
    ensures r == -1 ==> forall k :: start <= k < a.Length - 1 ==> a[k] != c
    ensures r >= 0 ==> a[r] == c && forall k :: start <= k < r ==> a[k] != c
  {
    var k := start;
    while a[k] != NUL
      invariant start <= k < a.Length && forall j :: start <= j < k ==> a[j] != c
      decreases a.Length - k
    {
      if a[k] == c {
        return k;
      }
      k := k + 1;
    }
    return -1;
  }

  /** The buffer from position end on is still the terminated text. */
  ghost predicate Uncut(copy: array<char>, request: string, end: int)
    reads copy
  {
    && copy.Length == |request| + 1 && 0 <= end <= |request| && copy[|request|] == NUL
    && forall i :: end <= i < |request| ==> copy[i] == request[i] != NUL
  }

  /** No newline follows, or one follows at once. */
  ghost predicate NothingMore(request: string, start: nat) {
    && start <= |request|
    && ((start < |request| && request[start] == NL) || forall k :: start <= k < |request| ==> request[k] != NL)
  }

  /** The first newline from start on is at nl, and the line is not empty. */
  ghost predicate LineEnds(request: string, start: nat, nl: nat) {
    start < nl < |request| && request[nl] == NL && forall k :: start <= k < nl ==> request[k] != NL
  }

  lemma NoLineAt(request: string, start: nat)
    requires NothingMore(request, start)
    ensures Lines(request[start..]) == []
  {
  }

  lemma LineAt(request: string, start: nat, nl: nat)
    requires LineEnds(request, start, nl)
    ensures Lines(request[start..]) == [request[start..nl]] + Lines(request[nl + 1..])
  {
    var s := request[start..];
    IndexUnique(s, NL, nl - start);
    assert s[..nl - start] == request[start..nl];
    assert s[nl - start + 1..] == request[nl + 1..];
  }

  lemma {:induction false} IndexUnique(s: string, c: char, i: nat)
    requires i < |s| && s[i] == c && forall k :: 0 <= k < i ==> s[k] != c
    ensures IndexOf(s, c) == i
  {
    if i > 0 {
      IndexUnique(s[1..], c, i - 1);
    }
  }

  /** Ends the line at start with a NUL where its newline was; -1 when there is no further line. */
  method CutLine(copy: array<char>, start: nat, ghost request: string) returns (end: int, line: string)
    requires Uncut(copy, request, start)
    modifies copy
    ensures end < 0 ==> NothingMore(request, start)
    ensures end >= 0 ==> LineEnds(request, start, end) && line == request[start..end]
    ensures end >= 0 ==> Uncut(copy, request, end + 1)
  {
    end := StrChr(copy, start, NL);
    if end < 0 || end == start {
      return -1, "";
    }
    line := copy[start..end];
    assert line == request[start..end];
    copy[end] := NUL;
  }

  /** parsequery's loop, on the terminated copy that it cuts at every newline. */
  method ProcessLines<T>(copy: array<char>, process: (T, string) -> T, init: T, ghost request: string) returns (t: T)
    requires Uncut(copy, request, 0)
    modifies copy
    ensures t == Fold(process, init, Lines(request))
  {
    t := init;
    var start, end := 0, 0;
    assert request[0..] == request;
    while true
      invariant 0 <= end && Uncut(copy, request, end)
      invariant Fold(process, t, Lines(request[end..])) == Fold(process, init, Lines(request))
      decreases |request| - end
    {
      start := end;
      var line;
      end, line := CutLine(copy, start, request);
      if end < 0 {
        NoLineAt(request, start);
        break;
      }
      LineAt(request, start, end);
      FoldOne(process, t, line, Lines(request[end + 1..]));
      t := process(t, line);
      end := end + 1;
    }
  }

  lemma FoldOne<T>(process: (T, string) -> T, t: T, line: string, rest: seq<string>)
    ensures Fold(process, t, [line] + rest) == Fold(process, process(t, line), rest)
  {
    assert ([line] + rest)[1..] == rest;
  }

  /** parsequery. */
  method ParseQuery(request: string) returns (tuple: Option<Tuple>)
    requires NUL !in request
    ensures tuple == Parse(request)
  {
    var n := |request|;
    var copy := new char[n + 1](i requires 0 <= i <= n => if i < n then request[i] else NUL);
    var t := ProcessLines(copy, ProcessParameter, NO_FIELDS, request);
    if CheckRequest(t) {
      return Some(t);
    }
    return None;
  }

  // The round trip.

  ghost predicate Clean(s: string) {
    NL !in s && NUL !in s
  }

  ghost predicate AreLines(ls: seq<string>) {
    forall i :: 0 <= i < |ls| ==> ls[i] != [] && NL !in ls[i]
  }

  /** The lines, each ended by a newline. */
  function Text(ls: seq<string>): string {
    if ls == [] then [] else ls[0] + [NL] + Text(ls[1..])
  }

  /** How many lines are complete in the first m characters. */
  function Whole(ls: seq<string>, m: nat): (k: nat)
    ensures k <= |ls|
  {
    if ls == [] || m <= |ls[0]| then 0 else 1 + Whole(ls[1..], m - |ls[0]| - 1)
  }

  /** A cut text yields the lines whose newline survived. */
  lemma {:induction false} LinesOfCut(ls: seq<string>, m: nat)
    requires AreLines(ls) && m <= |Text(ls)|
    ensures Lines(Text(ls)[..m]) == ls[..Whole(ls, m)]
    ensures Whole(ls, m) == |ls| <==> m == |Text(ls)|
  {
    if ls != [] {
      if m <= |ls[0]| {
        CutInFirst(ls[0], Text(ls[1..]), m);
      } else {
        LinesOfCut(ls[1..], m - |ls[0]| - 1);
        CutBeyond(ls, m);
      }
    }
  }

  lemma CutInFirst(first: string, rest: string, m: nat)
    requires m <= |first| && NL !in first
    ensures Lines((first + [NL] + rest)[..m]) == []
  {
    assert (first + [NL] + rest)[..m] == first[..m];
    NoNewline(first[..m], first);
  }

  lemma CutBeyond(ls: seq<string>, m: nat)
    requires ls != [] && ls[0] != [] && NL !in ls[0] && |ls[0]| < m <= |Text(ls)|
    requires var m' := m - |ls[0]| - 1; Lines(Text(ls[1..])[..m']) == ls[1..][..Whole(ls[1..], m')]
    ensures Lines(Text(ls)[..m]) == ls[..Whole(ls, m)]
  {
    var m' := m - |ls[0]| - 1;
    CutAfterLine(ls[0], Text(ls[1..]), m');
    LineFirst(ls[0], Text(ls[1..])[..m']);
    TakeOne(ls, Whole(ls[1..], m'));
  }

  lemma TakeOne<T>(s: seq<T>, k: nat)
    requires k < |s|
    ensures s[..1 + k] == [s[0]] + s[1..][..k]
  {
  }

  lemma CutAfterLine(first: string, rest: string, m: nat)
    requires m <= |rest|
    ensures (first + [NL] + rest)[..|first| + 1 + m] == first + [NL] + rest[..m]
  {
  }

  lemma NoNewline(cut: string, line: string)
    requires cut <= line && NL !in line
    ensures Lines(cut) == []
  {
    assert NL !in cut;
  }

  lemma LineFirst(first: string, rest: string)
    requires first != [] && NL !in first
    ensures Lines(first + [NL] + rest) == [first] + Lines(rest)
  {
    var s := first + [NL] + rest;
    assert s[..|first|] == first;
    assert forall k :: 0 <= k < |first| ==> s[k] == first[k] && first[k] in first;
    IndexUnique(s, NL, |first|);
    assert s[|first| + 1..] == rest;
  }

  /** With the empty line at the end, or without it, all lines are read. */
  lemma {:induction false} LinesOfAll(ls: seq<string>)
    requires AreLines(ls)
    ensures Lines(Text(ls) + [NL]) == ls
  {
    if ls != [] {
      LineFirst(ls[0], Text(ls[1..]) + [NL]);
      assert Text(ls) + [NL] == ls[0] + [NL] + (Text(ls[1..]) + [NL]);
      LinesOfAll(ls[1..]);
    } else {
      assert IndexOf([NL], NL) == 0;
    }
  }

  lemma SenderLine(t: Tuple, s: string)
    ensures ProcessParameter(t, "sender=" + s) == t.(sender := Some(s))
  {
  }

  lemma RecipientLine(t: Tuple, s: string)
    ensures ProcessParameter(t, "recipient=" + s) == t.(recipient := Some(s))
  {
    assert ("recipient=" + s)[0] == 'r';
  }

  lemma AddressLine(t: Tuple, s: string)
    ensures ProcessParameter(t, "client_address=" + s) == t.(clientAddress := Some(s))
  {
    assert ("client_address=" + s)[0] == 'c';
  }

  lemma HeloLine(t: Tuple, s: string)
    ensures ProcessParameter(t, "helo_name=" + s) == t.(heloName := Some(s))
  {
    assert ("helo_name=" + s)[0] == 'h';
  }

  function QueryLines(sender: string, rcpt: string, caddr: string, helo: Option<string>): seq<string> {
    ["sender=" + sender, "recipient=" + rcpt, "client_address=" + caddr] + HeloLines(helo)
  }

  function HeloLines(helo: Option<string>): seq<string> {
    if helo.Some? then ["helo_name=" + helo.value] else []
  }

  lemma FullTextLines(sender: string, rcpt: string, caddr: string, helo: Option<string>)
    ensures FullText(sender, rcpt, caddr, helo) == Text(QueryLines(sender, rcpt, caddr, helo)) + [NL]
  {
    TextOfThree("sender=" + sender, "recipient=" + rcpt, "client_address=" + caddr, HeloLines(helo));
    HeloText(helo);
    Glue("sender=", sender, "\nrecipient=", "recipient=", rcpt, "\nclient_address=", "client_address=", caddr,
         if helo.Some? then "\nhelo_name=" else "", if helo.Some? then helo.value else "", "\n\n",
         Text(HeloLines(helo)));
  }

  lemma TextOfThree(l0: string, l1: string, l2: string, rest: seq<string>)
    ensures Text([l0, l1, l2] + rest) == l0 + [NL] + (l1 + [NL] + (l2 + [NL] + Text(rest)))
  {
    var ls := [l0, l1, l2] + rest;
    assert ls[0..] == ls;
    TextAt(ls, 0);
    TextAt(ls, 1);
    TextAt(ls, 2);
  }

  lemma HeloText(helo: Option<string>)
    ensures (if helo.Some? then "\nhelo_name=" else "") + (if helo.Some? then helo.value else "") + "\n\n"
         == [NL] + Text(HeloLines(helo)) + [NL]
  {
    if helo.Some? {
      var line := "helo_name=" + helo.value;
      assert HeloLines(helo)[1..] == [];
      assert Text(HeloLines(helo)) == line + [NL];
    }
  }

  /** The newlines before the names are those after the lines before. */
  lemma Glue(a: string, s: string, b': string, b: string, r: string, c': string, c: string, ca: string,
             x: string, h: string, nn: string, rest: string)
    requires b' == [NL] + b && c' == [NL] + c && x + h + nn == [NL] + rest + [NL]
    ensures a + s + b' + r + c' + ca + x + h + nn ==
      (a + s) + [NL] + ((b + r) + [NL] + ((c + ca) + [NL] + rest)) + [NL]
  {
    var tail := (c + ca) + [NL] + rest;
    assert c' + ca + (x + h + nn) == [NL] + tail + [NL];
    assert b' + r + ([NL] + tail + [NL]) == [NL] + ((b + r) + [NL] + tail) + [NL];
    assert a + s + b' + r + c' + ca + x + h + nn == a + s + (b' + r + (c' + ca + (x + h + nn)));
  }

  lemma TextAt(ls: seq<string>, i: nat)
    requires i < |ls|
    ensures Text(ls[i..]) == ls[i] + [NL] + Text(ls[i + 1..])
  {
    assert ls[i..][1..] == ls[i + 1..];
  }

  lemma QueryClean(sender: string, rcpt: string, caddr: string, helo: Option<string>)
    requires Clean(sender) && Clean(rcpt) && Clean(caddr) && (helo.Some? ==> Clean(helo.value))
    ensures AreLines(QueryLines(sender, rcpt, caddr, helo)) && NUL !in FullText(sender, rcpt, caddr, helo)
  {
  }

  /** The fields that the first k lines give. */
  function FirstFields(sender: string, rcpt: string, caddr: string, helo: Option<string>, k: nat): Tuple {
    Tuple(if k >= 1 then Some(sender) else None,
          if k >= 2 then Some(rcpt) else None,
          if k >= 3 then Some(caddr) else None,
          if k >= 4 then helo else None)
  }

  lemma {:induction false} FoldLines(sender: string, rcpt: string, caddr: string, helo: Option<string>, k: nat, j: nat)
    requires j <= k <= |QueryLines(sender, rcpt, caddr, helo)|
    ensures var ls := QueryLines(sender, rcpt, caddr, helo);
      Fold(ProcessParameter, FirstFields(sender, rcpt, caddr, helo, j), ls[j..k]) ==
        FirstFields(sender, rcpt, caddr, helo, k)
    decreases k - j
  {
    if j < k {
      var ls := QueryLines(sender, rcpt, caddr, helo);
      FieldStep(sender, rcpt, caddr, helo, j);
      FoldLines(sender, rcpt, caddr, helo, k, j + 1);
      assert ls[j..k][1..] == ls[j + 1..k];
    }
  }

  lemma FieldStep(sender: string, rcpt: string, caddr: string, helo: Option<string>, j: nat)
    requires j < |QueryLines(sender, rcpt, caddr, helo)|
    ensures ProcessParameter(FirstFields(sender, rcpt, caddr, helo, j), QueryLines(sender, rcpt, caddr, helo)[j])
         == FirstFields(sender, rcpt, caddr, helo, j + 1)
  {
    var t := FirstFields(sender, rcpt, caddr, helo, j);
    if j == 0 {
      SenderLine(t, sender);
    } else if j == 1 {
      RecipientLine(t, rcpt);
    } else if j == 2 {
      AddressLine(t, caddr);
    } else {
      HeloLine(t, helo.value);
    }
  }

  /** What the server reads of a query: its first 1020 characters. */
  lemma {:induction false} Received(text: string)
    requires NUL !in text
    ensures RecvQueryStr(Buffer(SentText(Clip(text, MAXLINELEN - 2)))) == Clip(text, MAXLINELEN - HEADER)
  {
    var got := Clip(text, MAXLINELEN - HEADER);
    var sent := SentText(Clip(text, MAXLINELEN - 2));
    assert Clip(sent, MAXLINELEN - HEADER) == got;
    var pad := seq(MAXLINELEN - |got|, _ => NUL);
    assert Clip(Buffer(sent), MAXLINELEN - 1) == got + pad[..|pad| - 1];
    CStringPadded(got, pad[..|pad| - 1]);
  }

  lemma {:induction false} CStringPadded(s: string, pad: string)
    requires NUL !in s && (pad != [] ==> pad[0] == NUL)
    ensures CString(s + pad) == s
  {
    if s != [] {
      assert (s + pad)[1..] == s[1..] + pad;
      CStringPadded(s[1..], pad);
    } else {
      assert s + pad == pad;
    }
  }

  lemma LinesReceived(ls: seq<string>, text: string) returns (k: nat)
    requires AreLines(ls) && text == Text(ls) + [NL]
    ensures k <= |ls| && Lines(Clip(text, MAXLINELEN - HEADER)) == ls[..k]
    ensures k == |ls| <==> |text| <= 1021
  {
    var m := MAXLINELEN - HEADER;
    if |text| <= m {
      LinesOfAll(ls);
      k := |ls|;
    } else {
      LinesOfCut(ls, m);
      assert text[..m] == Text(ls)[..m];
      k := Whole(ls, m);
    }
  }

  /** What the server makes of a query for these fields. */
  function Served(sender: string, rcpt: string, caddr: string, helo: Option<string>): Option<Tuple> {
    Parse(RecvQueryStr(Buffer(SentText(BuildQueryStr(sender, rcpt, caddr, helo)))))
  }

  /**
   The server reads back exactly the fields the client was given if and only if their text is at
   most 1021 characters long: the second of the two final newlines may be lost, the first may not.
   */
  lemma {:induction false} RoundTripsExactly(sender: string, rcpt: string, caddr: string, helo: Option<string>)
    requires Clean(sender) && Clean(rcpt) && Clean(caddr) && (helo.Some? ==> Clean(helo.value))
    ensures Served(sender, rcpt, caddr, helo) == Some(Tuple(Some(sender), Some(rcpt), Some(caddr), helo))
        <==> |FullText(sender, rcpt, caddr, helo)| <= 1021
  {
    var k := FieldsServed(sender, rcpt, caddr, helo);
  }

  /** The server gets the fields of the first k lines. */
  lemma FieldsServed(sender: string, rcpt: string, caddr: string, helo: Option<string>) returns (k: nat)
    requires Clean(sender) && Clean(rcpt) && Clean(caddr) && (helo.Some? ==> Clean(helo.value))
    ensures k <= |QueryLines(sender, rcpt, caddr, helo)|
    ensures k == |QueryLines(sender, rcpt, caddr, helo)| <==> |FullText(sender, rcpt, caddr, helo)| <= 1021
    ensures Served(sender, rcpt, caddr, helo) ==
      if k >= 3 then Some(FirstFields(sender, rcpt, caddr, helo, k)) else None
  {
    var ls, text := QueryLines(sender, rcpt, caddr, helo), FullText(sender, rcpt, caddr, helo);
    QueryClean(sender, rcpt, caddr, helo);
    FullTextLines(sender, rcpt, caddr, helo);
    Received(text);
    k := LinesReceived(ls, text);
    assert ls[0..k] == ls[..k];
    FoldLines(sender, rcpt, caddr, helo, k, 0);
  }

  /** A longer text without helo name is refused, one with a helo name loses at least that. */
  lemma LongTextLoses(sender: string, rcpt: string, caddr: string, helo: Option<string>)
    requires Clean(sender) && Clean(rcpt) && Clean(caddr) && (helo.Some? ==> Clean(helo.value))
    requires |FullText(sender, rcpt, caddr, helo)| > 1021
    ensures helo.None? ==> Served(sender, rcpt, caddr, helo) == None
    ensures Served(sender, rcpt, caddr, helo).Some? ==> Served(sender, rcpt, caddr, helo).value.heloName == None
  {
    var k := FieldsServed(sender, rcpt, caddr, helo);
  }

  /** A sender of 986 characters is enough, even with the shortest recipient and address. */
  lemma LongSenderRefused()
    ensures Served(seq(986, _ => 'a'), "", "", None) == None
  {
    LongTextLoses(seq(986, _ => 'a'), "", "", None);
  }
}
