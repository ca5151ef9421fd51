/**
 * `make_vcard`: the contact card encoded in each badge's QR code, a
 * six-line record in the style of the versit vCard 2.1 specification,
 * lines separated by CR LF. Field values are inserted without escaping.
 */
module Vcard {
  import opened Common

  const Crlf: string := "\r\n"

  /** `s` has no CR immediately followed by LF. */
  predicate NoCrlf(s: string)
  {
    forall i :: 0 <= i < |s| - 1 ==> !(s[i] == '\r' && s[i + 1] == '\n')
  }

  /** `"\r\n".join(lines)`. */
  function Join(lines: seq<string>): string
  {
    if |lines| == 0 then ""
    else if |lines| == 1 then lines[0]
    else lines[0] + Crlf + Join(lines[1..])
  }

  /** Position of the leftmost CR LF in `s`, if any. */
  function FirstCrlf(s: string): (r: Option<int>)
    ensures r.None? <==> NoCrlf(s)
    ensures r.Some? ==>
      && 0 <= r.value < |s| - 1
      && s[r.value] == '\r' && s[r.value + 1] == '\n'
      && NoCrlf(s[..r.value + 1])
  {
    if |s| < 2 then None
    else if s[0] == '\r' && s[1] == '\n' then Some(0)
    else match FirstCrlf(s[1..])
      case None => None
      case Some(j) =>
        assert s[1..][..j + 1] == s[1..j + 2];
        Some(j + 1)
  }

  /** `s.split("\r\n")`: the pieces between CR LF separators, left to right. */
  function Split(s: string): (r: seq<string>)
    ensures |r| >= 1
    decreases |s|
  {
    match FirstCrlf(s)
    case None => [s]
    case Some(i) => [s[..i]] + Split(s[i + 2..])
  }

  /** The six lines of the card, in order. */
  function CardLines(first: string, last: string, company: string, email: string): seq<string>
  {
    ["BEGIN:VCARD", "VERSION:2.1", "N:" + last + ";" + first, "ORG:" + company, "EMAIL:" + email, "END:VCARD"]
  }

  /**
   * The card text: it opens with the BEGIN, VERSION and structured-name
   * prefix, closes with END, and adds exactly 54 characters of fixed text
   * to the four field values.
   */
  function MakeVcard(first: string, last: string, company: string, email: string): (r: string)
    ensures |r| == |first| + |last| + |company| + |email| + 54
    ensures r[..28] == "BEGIN:VCARD\r\nVERSION:2.1\r\nN:"
    ensures r[|r| - 11..] == "\r\nEND:VCARD"
  {
    var r := Join(CardLines(first, last, company, email));
    var rest := CardMiddle(first, last, company, email);
    JoinCardFlat(first, last, company, email);
    assert r == "BEGIN:VCARD\r\nVERSION:2.1\r\nN:" + rest + "\r\nEND:VCARD";
    r
  }

  /** The card lines joined, written out right-nested. */
  lemma JoinCard(first: string, last: string, company: string, email: string)
    ensures var n, o, e := "N:" + last + ";" + first, "ORG:" + company, "EMAIL:" + email;
      Join(CardLines(first, last, company, email)) ==
      "BEGIN:VCARD" + Crlf + ("VERSION:2.1" + Crlf + (n + Crlf + (o + Crlf + (e + Crlf + "END:VCARD"))))
  {
    var lines := CardLines(first, last, company, email);
    assert lines[4..][1..] == lines[5..] && lines[3..][1..] == lines[4..];
    assert lines[2..][1..] == lines[3..] && lines[1..][1..] == lines[2..];
    assert Join(lines[5..]) == "END:VCARD";
    assert Join(lines[4..]) == lines[4] + Crlf + Join(lines[5..]);
    assert Join(lines[3..]) == lines[3] + Crlf + Join(lines[4..]);
    assert Join(lines[2..]) == lines[2] + Crlf + Join(lines[3..]);
    assert Join(lines[1..]) == lines[1] + Crlf + Join(lines[2..]);
  }

  /** The variable part of the card, from the last name to the email. */
  function CardMiddle(first: string, last: string, company: string, email: string): (r: string)
    ensures |r| == |first| + |last| + |company| + |email| + 15
  {
    last + ";" + first + Crlf + ("ORG:" + company + Crlf + ("EMAIL:" + email))
  }

  /** Regrouping the name, organisation and email lines around the CR LFs between them. */
  lemma RegroupMiddle(first: string, last: string, company: string, email: string, tail: string)
    ensures var n, o, e := "N:" + last + ";" + first, "ORG:" + company, "EMAIL:" + email;
      n + Crlf + (o + Crlf + (e + tail)) == "N:" + CardMiddle(first, last, company, email) + tail
  {
  }

  /** Regrouping the fixed head of the card. */
  lemma RegroupHead(rest: string, tail: string)
    ensures "BEGIN:VCARD" + Crlf + ("VERSION:2.1" + Crlf + ("N:" + rest + tail))
      == "BEGIN:VCARD\r\nVERSION:2.1\r\nN:" + rest + tail
  {
  }

  /** The card lines joined: a fixed head, the variable middle, a fixed tail. */
  lemma JoinCardFlat(first: string, last: string, company: string, email: string)
    ensures Join(CardLines(first, last, company, email)) ==
      "BEGIN:VCARD\r\nVERSION:2.1\r\nN:" + CardMiddle(first, last, company, email) + "\r\nEND:VCARD"
  {
    var tail := Crlf + "END:VCARD";
    JoinCard(first, last, company, email);
    RegroupMiddle(first, last, company, email, tail);
    RegroupHead(CardMiddle(first, last, company, email), tail);
    assert tail == "\r\nEND:VCARD";
  }

  // ---------------------------------------------------------------------
  // Splitting the card back into lines
  // ---------------------------------------------------------------------

  /** A CR LF placed after a CR-LF-free prefix is the leftmost one. */
  lemma {:induction false} FirstCrlfAfter(a: string, b: string)
    requires NoCrlf(a)
    ensures FirstCrlf(a + Crlf + b) == Some(|a|)
  {
    var s := a + Crlf + b;
    if |a| > 0 {
      assert s[1..] == a[1..] + Crlf + b;
      FirstCrlfAfter(a[1..], b);
      assert !(s[0] == '\r' && s[1] == '\n');
    }
  }

  /** Splitting a join of CR-LF-free lines gives the lines back. */
  lemma {:induction false} SplitJoin(lines: seq<string>)
    requires |lines| >= 1
    requires forall k :: 0 <= k < |lines| ==> NoCrlf(lines[k])
    ensures Split(Join(lines)) == lines
  {
    if |lines| > 1 {
      var rest := Join(lines[1..]);
      var s := lines[0] + Crlf + rest;
      FirstCrlfAfter(lines[0], rest);
      assert s[..|lines[0]|] == lines[0];
      assert s[|lines[0]| + 2..] == rest;
      SplitJoin(lines[1..]);
      assert lines == [lines[0]] + lines[1..];
    }
  }

  /** Joining a character that is neither CR nor LF cannot create a CR LF. */
  lemma NoCrlfAround(a: string, c: char, b: string)
    requires NoCrlf(a) && NoCrlf(b) && c != '\r' && c != '\n'
    ensures NoCrlf(a + [c] + b)
  {
    var s := a + [c] + b;
    forall i | 0 <= i < |s| - 1
      ensures !(s[i] == '\r' && s[i + 1] == '\n')
    {
      if i < |a| - 1 {
        assert s[i] == a[i] && s[i + 1] == a[i + 1];
      } else if i > |a| {
        assert s[i] == b[i - |a| - 1] && s[i + 1] == b[i - |a|];
      }
    }
  }

  /** Field values without CR LF give card lines without CR LF. */
  lemma CardLinesNoCrlf(first: string, last: string, company: string, email: string)
    requires NoCrlf(first) && NoCrlf(last) && NoCrlf(company) && NoCrlf(email)
    ensures forall k :: 0 <= k < 6 ==> NoCrlf(CardLines(first, last, company, email)[k])
  {
    NoCrlfAround("N", ':', last);
    NoCrlfAround("N:" + last, ';', first);
    assert "N:" + last == "N" + [':'] + last;
    assert "N:" + last + ";" + first == ("N:" + last) + [';'] + first;
    NoCrlfAround("ORG", ':', company);
    assert "ORG:" + company == "ORG" + [':'] + company;
    NoCrlfAround("EMAIL", ':', email);
    assert "EMAIL:" + email == "EMAIL" + [':'] + email;
  }

  /**
   * When no field contains CR LF, splitting the card on CR LF gives back
   * exactly its six lines.
   */
  lemma SplitCard(first: string, last: string, company: string, email: string)
    requires NoCrlf(first) && NoCrlf(last) && NoCrlf(company) && NoCrlf(email)
    ensures Split(MakeVcard(first, last, company, email)) == CardLines(first, last, company, email)
  {
    CardLinesNoCrlf(first, last, company, email);
    SplitJoin(CardLines(first, last, company, email));
  }

  // ---------------------------------------------------------------------
  // Reading the fields back
  // ---------------------------------------------------------------------

  /** The contact a card describes. */
  datatype Contact = Contact(first: string, last: string, company: string, email: string)

  /** `line` with `prefix` removed, if it starts with it. */
  function StripPrefix(prefix: string, line: string): (r: Option<string>)
    ensures r.Some? <==> prefix <= line
    ensures r.Some? ==> line == prefix + r.value
  {
    if prefix <= line then Some(line[|prefix|..]) else None
  }

  /** Index of the first `;` in `s`, if any. */
  function FirstSemicolon(s: string): (r: Option<int>)
    ensures r.None? <==> ';' !in s
    ensures r.Some? ==> 0 <= r.value < |s| && s[r.value] == ';' && ';' !in s[..r.value]
  {
    if |s| == 0 then None
    else if s[0] == ';' then Some(0)
    else match FirstSemicolon(s[1..])
      case None => None
      case Some(j) =>
        assert s[..j + 1] == [s[0]] + s[1..][..j];
        Some(j + 1)
  }

  /** The `;` written after a `;`-free last name is the first one. */
  lemma {:induction false} FirstSemicolonAfter(a: string, b: string)
    requires ';' !in a
    ensures FirstSemicolon(a + ";" + b) == Some(|a|)
  {
    var s := a + ";" + b;
    if |a| > 0 {
      assert s[1..] == a[1..] + ";" + b;
      assert a[0] in a;
      FirstSemicolonAfter(a[1..], b);
    }
  }

  /**
   * Reads a card back: six CR-LF-separated lines, the fixed first, second
   * and last line, and the `N:`, `ORG:` and `EMAIL:` prefixes; the
   * structured name is split at its first `;` into last and first name.
   */
  function ParseVcard(s: string): (r: Option<Contact>)
    ensures r.Some? ==> MakeVcard(r.value.first, r.value.last, r.value.company, r.value.email) == s
  {
    var lines := Split(s);
    if |lines| != 6 || lines[0] != "BEGIN:VCARD" || lines[1] != "VERSION:2.1" || lines[5] != "END:VCARD" then None
    else
      match (StripPrefix("N:", lines[2]), StripPrefix("ORG:", lines[3]), StripPrefix("EMAIL:", lines[4]))
      case (Some(n), Some(org), Some(email)) =>
        (match FirstSemicolon(n)
         case Some(i) =>
           ParsedLines(lines, n, i, org, email);
           ParsedCardRejoins(s, n[i + 1..], n[..i], org, email);
           Some(Contact(n[i + 1..], n[..i], org, email))
         case None => None)
      case _ => None
  }

  /** Six card lines whose name value has a `;` at `i` are the card lines of the split name. */
  lemma ParsedLines(lines: seq<string>, n: string, i: int, org: string, email: string)
    requires |lines| == 6 && lines[0] == "BEGIN:VCARD" && lines[1] == "VERSION:2.1" && lines[5] == "END:VCARD"
    requires lines[2] == "N:" + n && lines[3] == "ORG:" + org && lines[4] == "EMAIL:" + email
    requires 0 <= i < |n| && n[i] == ';'
    ensures lines == CardLines(n[i + 1..], n[..i], org, email)
  {
    assert n == n[..i] + ";" + n[i + 1..];
    assert lines[2] == "N:" + n[..i] + ";" + n[i + 1..];
  }

  /** A string that splits into the card lines of some fields is the card of those fields. */
  lemma ParsedCardRejoins(s: string, first: string, last: string, company: string, email: string)
    requires Split(s) == CardLines(first, last, company, email)
    ensures MakeVcard(first, last, company, email) == s
  {
    JoinSplit(s);
  }

  /** Joining the pieces of a split gives back the string. */
  lemma {:induction false} JoinSplit(s: string)
    ensures Join(Split(s)) == s
    decreases |s|
  {
    match FirstCrlf(s)
    case None =>
    case Some(i) =>
      var rest := Split(s[i + 2..]);
      JoinSplit(s[i + 2..]);
      assert Split(s) == [s[..i]] + rest;
      assert s == s[..i] + Crlf + s[i + 2..];
  }

  /**
   * The round trip: a card made from fields without CR LF, whose last name
   * has no `;`, reads back as the same contact.
   */
  lemma ParseMakeVcard(first: string, last: string, company: string, email: string)
    requires NoCrlf(first) && NoCrlf(last) && NoCrlf(company) && NoCrlf(email)
    requires ';' !in last
    ensures ParseVcard(MakeVcard(first, last, company, email)) == Some(Contact(first, last, company, email))
  {
    SplitCard(first, last, company, email);
    var n := last + ";" + first;
    assert "N:" + last + ";" + first == "N:" + n;
    FirstSemicolonAfter(last, first);
    assert n[..|last|] == last && n[|last| + 1..] == first;
  }
}
