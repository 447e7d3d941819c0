/** What a Set-Cookie header says, part by part (src/core/browser.cpp; sections 5.2 and 5.3 of RFC 6265). */
module SetCookieLaws {
  import opened Bytes
  import opened Urls
  import opened CookieJar
  import opened Decimals
  import opened SetCookie
  import opened Trimming

  // ----- trimming -----

  /** No blank at either end. */
  predicate Trimmed(t: Str) { t == [] || (!IsSpace(t[0]) && !IsSpace(t[|t| - 1])) }

  /** Blanks around a trimmed text are what trimming takes off. */
  lemma TrimRead(a: Str, t: Str, b: Str)
    requires Blank(a) && Blank(b) && Trimmed(t)
    ensures Trim(a + t + b) == t
  {
    Associate(a, t, b);
    TrimFront(a, t + b);
    if t == [] {
      EmptyIsUnit(b);
      EmptyIsUnit(a);
      AllTrimmed(b);
    } else {
      assert (t + b)[0] == t[0];
      TrimPlain(t + b);
      OnlyRestTrimmed(t, b);
      AllTrimmedRight(b);
      EmptyIsUnit(t);
    }
  }

  lemma AllTrimmed(b: Str)
    requires Blank(b)
    ensures TrimLeft(b) == []
  {
    EmptyIsUnit(b);
    TrimFront(b, []);
  }

  lemma {:induction false} AllTrimmedRight(b: Str)
    requires Blank(b)
    ensures TrimRight(b) == []
  {
    if b != [] {
      AllTrimmedRight(b[..|b| - 1]);
    }
  }

  lemma TrimParts(s: Str) returns (a: Str, b: Str)
    ensures s == a + Trim(s) + b && Blank(a) && Blank(b) && Trimmed(Trim(s))
  {
    hide TrimLeft, TrimRight;
    a := BlanksTrimmed(s);
    var t := TrimLeft(s);
    TrimmedInFront(t);
    b := t[|Trim(s)|..];
    TakeAndDrop(t, |Trim(s)|);
    Associate(a, Trim(s), b);
    assert Trim(s) != [] ==> Trim(s)[0] == t[0];
  }

  lemma TrimInside(p: Str, q: Str)
    ensures Trim(p + "=" + q) == TrimLeft(p) + "=" + TrimRight(q)
    ensures Trim(TrimLeft(p)) == Trim(p) && Trim(TrimRight(q)) == Trim(q)
  {
    var a := BlanksTrimmed(p);
    var t := TrimLeft(p);
    assert p + "=" + q == a + (t + "=" + q);
    TrimFront(a, t + "=" + q);
    assert (t + "=" + q)[0] == if t == [] then '=' else t[0];
    TrimPlain(t + "=" + q);
    OnlyRestTrimmed(t + "=", q);
    TrimPlain(t);
    TrimRightFirst(q);
  }

  lemma TrimRightFirst(q: Str)
    ensures Trim(TrimRight(q)) == Trim(q)
  {
    var a, b := TrimParts(q);
    var t := Trim(q);
    if t == [] {
      assert q == a + b;
      AllTrimmedRight(q);
    } else {
      OnlyRestTrimmed(a + t, b);
      AllTrimmedRight(b);
      EmptyIsUnit(a + t);
      TrimRead(a, t, []);
    }
  }

  // ----- pairs and attributes -----

  lemma FirstEquals(p: Str, q: Str)
    requires '=' !in p
    ensures var s := p + "=" + q; Find(s, '=', 0) == |p| && s[..|p|] == p && s[|p| + 1..] == q
  {
    var s := p + "=" + q;
    assert forall i :: 0 <= i < |p| ==> s[i] == p[i];
    assert s[|p|] == '=';
  }

  lemma NoEquals(p: Str)
    requires '=' !in p
    ensures '=' !in TrimLeft(p) && '=' !in Trim(p)
  {
    var a, b := TrimParts(p);
    var c := BlanksTrimmed(p);
    hide TrimLeft, TrimRight;
    assert forall x :: x in TrimLeft(p) ==> x in p;
    assert forall x :: x in Trim(p) ==> x in p;
  }

  /** An attribute is a name in any case, and a value behind the first `=`, each with any blanks around it. */
  lemma AttributeReads(p: Str, q: Str)
    requires '=' !in p
    ensures NameAndValue(p + "=" + q) == (Lower(Trim(p)), Trim(q)) && NameAndValue(p) == (Lower(Trim(p)), [])
  {
    TrimInside(p, q);
    NoEquals(p);
    FirstEquals(TrimLeft(p), TrimRight(q));
    TrimAgain(p);
    hide Trim, TrimLeft, TrimRight;
    assert Trim(p)[..|Trim(p)|] == Trim(p);
  }

  lemma TrimAgain(p: Str)
    ensures Trim(Trim(p)) == Trim(p)
  {
    var a, b := TrimParts(p);
    TrimRead([], Trim(p), []);
    EmptyIsUnit(Trim(p));
  }

  /** Attributes stand between semicolons. */
  lemma AttributesSplit(text: Str, rest: Str)
    requires ';' !in text
    ensures AttributeTexts(text + ";" + rest) == [text] + AttributeTexts(rest)
    ensures text != [] ==> AttributeTexts(text) == [text]
  {
    hide Find;
    FirstPart(text, rest);
    EmptyIsUnit([text]);
  }

  /** The name and the value stand on the two sides of the first `=`; without a name there is no cookie. */
  lemma PairReads(p: Str, q: Str, rest: Str)
    requires '=' !in p && ';' !in p && ';' !in q
    ensures forall header :: header == p + "=" + q || header == p + "=" + q + ";" + rest ==>
              FirstPair(header) == if Trim(p) == [] then None else Some((Trim(p), Trim(q)))
    ensures AfterFirst(p + "=" + q) == [] && AfterFirst(p + "=" + q + ";" + rest) == rest
    ensures forall header :: header == p || header == p + ";" + rest ==> FirstPair(header) == None
  {
    FirstPart(p + "=" + q, rest);
    FirstPart(p, rest);
    TrimInside(p, q);
    NoEquals(p);
    FirstEquals(TrimLeft(p), TrimRight(q));
    hide TrimLeft, TrimRight, Find;
    TrimOfFront(p);
  }

  lemma TrimOfFront(p: Str)
    ensures TrimLeft(p) == [] ==> Trim(p) == []
  {
  }

  lemma FirstPart(text: Str, rest: Str)
    requires ';' !in text
    ensures forall header :: header == text || header == text + ";" + rest ==> header[..Find(header, ';', 0)] == text
    ensures Find(text, ';', 0) == |text| && Find(text + ";" + rest, ';', 0) == |text| && text[..|text|] == text
    ensures (text + ";" + rest)[..|text|] == text && (text + ";" + rest)[|text| + 1..] == rest
    ensures AfterFirst(text) == [] && AfterFirst(text + ";" + rest) == rest
  {
    var s := text + ";" + rest;
    assert forall i :: 0 <= i < |text| ==> s[i] == text[i];
    assert s[|text|] == ';' && s[..|text|] == text && s[|text| + 1..] == rest;
    assert Find(s, ';', 0) == |text| && Find(text, ';', 0) == |text|;
    assert text[..|text|] == text;
  }

  // ----- numbers, times and paths -----

  lemma {:induction false} DigitsSpell(digits: Str, v: nat)
    ensures Spells(digits, v) <==> AllDigits(digits) && DecimalValue(digits) == v
  {
    if digits != [] {
      var init, last := digits[..|digits| - 1], digits[|digits| - 1];
      DigitsSpell(init, v / 10);
      DigitIs(last, v % 10);
      hide IsDigit, DIGITS;
      assert digits == init + [last];
      assert AllDigits(digits) <==> AllDigits(init) && IsDigit(last) by {
        assert forall i :: 0 <= i < |init| ==> digits[i] == init[i];
      }
      if IsDigit(last) {
        DigitBelow(last);
      }
    }
  }

  lemma DigitBelow(c: Byte)
    requires IsDigit(c)
    ensures 0 <= c as int - '0' as int < 10
  {
  }

  /** A Max-Age value is the digits of a 64-bit number, with a minus sign or none; a plus sign is not accepted. */
  lemma SecondsRead(s: Str, n: int)
    ensures ParseInt64(s) == Some(n)
            <==> IsInt64(n)
                 && ((n >= 0 && s != [] && s[0] != '-' && Spells(s, n))
                     || (n <= 0 && |s| > 1 && s[0] == '-' && Spells(s[1..], -n)))
  {
    hide DecimalValue, AllDigits, Spells;
    if n >= 0 {
      DigitsSpell(s, n);
    }
    if n <= 0 && s != [] {
      DigitsSpell(s[1..], -n);
    }
  }

  /** From 1970 on, a cookie with a Max-Age has expired exactly when so many seconds have passed, whatever saturates. */
  lemma ExpiresAfter(now: int, seconds: int, later: int)
    requires 0 <= now <= later < INT64_MAX
    ensures AddSeconds(now, seconds) <= later <==> now + seconds <= later
  {
  }

  /** The default path is the request path up to its last slash. */
  lemma DefaultPathIs(origin: Url, directory: Str, last: Str)
    requires '/' !in last && (directory != [] ==> directory[0] == '/')
    ensures origin.path == directory + "/" + last ==>
              DefaultCookiePath(origin) == if directory == [] then "/" else directory
    ensures origin.path == [] || origin.path[0] != '/' ==> DefaultCookiePath(origin) == "/"
  {
    var path := directory + "/" + last;
    assert forall i :: |directory| < i < |path| ==> path[i] == last[i - |directory| - 1];
    assert path[|directory|] == '/' && path[..|directory|] == directory;
    assert FindLast(path, '/') == |directory|;
    assert directory != [] ==> path[0] == directory[0];
  }

  // ----- which attribute counts -----

  /** What the last attribute of a name says, where it says something acceptable. */
  function Pick<T>(texts: seq<Str>, name: Str, read: Str -> Option<T>): Option<T> {
    if texts == [] then None
    else
      var later := Pick(texts[1..], name, read);
      if later.Some? then later else Said(texts[0], name, read)
  }

  function Said<T>(text: Str, name: Str, read: Str -> Option<T>): Option<T> {
    if NameAndValue(text).0 == name then read(NameAndValue(text).1) else None
  }

  predicate SaidLast<T(==)>(texts: seq<Str>, k: nat, name: Str, read: Str -> Option<T>, x: T) {
    k < |texts| && Said(texts[k], name, read) == Some(x)
    && forall j :: k < j < |texts| ==> Said(texts[j], name, read) == None
  }

  lemma {:induction false} PickIsLast<T>(texts: seq<Str>, name: Str, read: Str -> Option<T>, x: T)
    ensures Pick(texts, name, read) == Some(x) <==> exists k: nat :: SaidLast(texts, k, name, read, x)
  {
    hide Said;
    if texts != [] {
      var rest := texts[1..];
      PickIsLast(rest, name, read, x);
      PickNone(rest, name, read);
      if Pick(rest, name, read) == Some(x) {
        var k: nat :| SaidLast(rest, k, name, read, x);
        assert forall j :: k + 1 < j < |texts| ==> texts[j] == rest[j - 1];
        assert SaidLast(texts, k + 1, name, read, x);
      } else if Pick(texts, name, read) == Some(x) {
        assert forall j :: 0 < j < |texts| ==> texts[j] == rest[j - 1];
        assert SaidLast(texts, 0, name, read, x);
      }
      if k: nat :| SaidLast(texts, k, name, read, x) {
        assert forall j :: 0 <= j < |rest| ==> rest[j] == texts[j + 1];
        if k > 0 {
          assert SaidLast(rest, k - 1, name, read, x);
        }
      }
    }
  }

  lemma {:induction false} PickNone<T>(texts: seq<Str>, name: Str, read: Str -> Option<T>)
    ensures Pick(texts, name, read) == None <==> forall j :: 0 <= j < |texts| ==> Said(texts[j], name, read) == None
  {
    hide Said;
    if texts != [] {
      PickNone(texts[1..], name, read);
      assert forall j :: 0 <= j < |texts[1..]| ==> texts[1..][j] == texts[j + 1];
      assert forall j :: 0 < j < |texts| ==> texts[j] == texts[1..][j - 1];
    }
  }

  /** Attributes that say whatever they can. */
  function Anything(value: Str): Option<Str> { Some(value) }

  function NonEmptyValue(value: Str): Option<Str> { if value != [] then Some(value) else None }

  function AbsoluteValue(value: Str): Option<Str> { if value != [] && value[0] == '/' then Some(value) else None }

  function DomainTold(texts: seq<Str>): Option<Str> { Pick(texts, "domain", NonEmptyValue) }

  function PathTold(texts: seq<Str>): Option<Str> { Pick(texts, "path", AbsoluteValue) }

  function SameSiteTold(texts: seq<Str>): Option<Str> { Pick(texts, "samesite", Anything) }

  predicate SecureTold(texts: seq<Str>) { Pick(texts, "secure", Anything).Some? }

  predicate HttpOnlyTold(texts: seq<Str>) { Pick(texts, "httponly", Anything).Some? }

  function MaxAgeTold(texts: seq<Str>): Option<int> { Pick(texts, "max-age", ParseInt64) }

  function DateTold(texts: seq<Str>, dates: DateParser): Option<int> { Pick(texts, "expires", dates) }

  /** Max-Age goes before Expires. */
  function ExpiryTold(texts: seq<Str>, now: int, dates: DateParser): Option<int> {
    match MaxAgeTold(texts)
    case None => DateTold(texts, dates)
    case Some(seconds) => Some(AddSeconds(now, seconds))
  }

  /** What the attributes say together, each by its name. */
  lemma {:induction false} ToldByName(texts: seq<Str>, dates: DateParser)
    ensures var t := AllTold(texts, dates);
            && t.domain == DomainTold(texts) && t.path == PathTold(texts) && t.sameSite == SameSiteTold(texts)
            && t.secure == SecureTold(texts) && t.httpOnly == HttpOnlyTold(texts)
            && t.maxAge == MaxAgeTold(texts) && t.date == DateTold(texts, dates)
  {
    hide NameAndValue, ParseInt64;
    if texts != [] {
      ToldByName(texts[1..], dates);
    }
  }

  /**
   * The cookie of a header, field by field; without one of the attributes a field has its default. A secure cookie is
   * refused over http, and a domain that the host is not in.
   */
  lemma HeaderSays(header: Str, origin: Url, now: int, dates: DateParser, dots: Str, domain: Str)
    requires FirstPair(header).Some?
    requires (forall i :: 0 <= i < |dots| ==> dots[i] == '.') && (domain != [] ==> domain[0] != '.')
    ensures var texts := AttributeTexts(AfterFirst(header));
            var (name, value) := FirstPair(header).value;
            var told := DomainTold(texts);
            told == None || told == Some(dots + domain) ==>
            ParseSetCookie(header, origin, now, dates)
            == if SecureTold(texts) && origin.scheme != "https" then None
               else if told.Some? && !AtOrBelow(origin.host, Lower(domain)) then None
               else
                 Some(Cookie(name, value, if told.Some? then Lower(domain) else [],
                             OrElse(PathTold(texts), DefaultCookiePath(origin)), SecureTold(texts), HttpOnlyTold(texts),
                             told.None?, ExpiryTold(texts, now, dates), OrElse(SameSiteTold(texts), [])))
  {
    var texts, st := AttributeTexts(AfterFirst(header)), Fresh(FirstPair(header).value, origin);
    LastAttributeCounts(st, texts, dates);
    ToldByName(texts, dates);
    DotsDropped(dots, domain);
    DomainsAgree(origin.host, Lower(domain));
    ToldDomainIsNonempty(texts);
    hide ApplyAll, AllTold, AttributeTexts, Pick, FirstPair, DefaultCookiePath, AddSeconds, Lower, DropDots, AtOrBelow,
         IsOrEndsInDotted, AfterFirst, DomainTold, PathTold, SameSiteTold, SecureTold, HttpOnlyTold, MaxAgeTold, DateTold;
  }

  lemma {:induction false} ToldDomainIsNonempty(texts: seq<Str>)
    ensures var told := DomainTold(texts); told.Some? ==> told.value != []
  {
    hide NameAndValue;
    if texts != [] {
      ToldDomainIsNonempty(texts[1..]);
    }
  }

  /** The name of a header is read in any case. */
  lemma NamesHeader(name: Str)
    ensures SameName(name, "Set-Cookie")
            <==> |name| == 10 && forall i :: 0 <= i < 10 ==> name[i] == "set-cookie"[i] || name[i] == "SET-COOKIE"[i]
  {
    assert Lower("Set-Cookie") == "set-cookie";
    forall i | 0 <= i < |name| && |name| == 10
      ensures LowerByte(name[i]) == "set-cookie"[i] <==> name[i] == "set-cookie"[i] || name[i] == "SET-COOKIE"[i]
    {
      LetterOf(name[i], i);
    }
    hide LowerByte;
    if |name| == 10 && forall i :: 0 <= i < 10 ==> LowerByte(name[i]) == "set-cookie"[i] {
      assert Lower(name) == "set-cookie";
    }
  }

  lemma LetterOf(c: Byte, i: nat)
    requires i < 10
    ensures LowerByte(c) == "set-cookie"[i] <==> c == "set-cookie"[i] || c == "SET-COOKIE"[i]
  {
  }
}
