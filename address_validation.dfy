/**
 * `acquire_mail_address` and `acquire_url_address`: dictionary-presence
 * checks and three anchored regular expressions, each restated as a
 * predicate over the text. A pattern ending in Python's `$` also matches
 * when one newline follows the text it describes.
 */
module AddressValidation {
  import opened Text
  import opened PyRuntime

  /** A receiver request: its `notification_fields` entry is a dictionary of strings. */
  type Request = map<string, map<string, string>>

  const NotificationFields: string := "notification_fields"
  const MailAddressField: string := "mail_address"

  /** `False`, or the accepted (lower-cased) address. */
  datatype MailResult = Rejected | Accepted(address: string)

  /** `[\w-]` */
  predicate IsLabelChar(c: char) {
    IsWordChar(c) || c == '-'
  }

  /** `[\w-]+` */
  predicate IsLabel(s: string) {
    |s| > 0 && forall k :: 0 <= k < |s| ==> IsLabelChar(s[k])
  }

  predicate AllLabels(parts: seq<string>) {
    forall k :: 0 <= k < |parts| ==> IsLabel(parts[k])
  }

  /** `[a-z]{2,4}` */
  predicate IsTopLevel(s: string) {
    2 <= |s| <= 4 && forall k :: 0 <= k < |s| ==> 'a' <= s[k] <= 'z'
  }

  /**
   * `([\w-]+\.)*[\w-]+@([\w-]+\.)+[a-z]{2,4}` against the whole text: one
   * `@`; before it, dot-separated labels; after it, at least two
   * dot-separated labels, the last of which is two to four lower-case letters.
   */
  predicate MailShape(t: string) {
    var halves := Split(t, '@');
    && |halves| == 2
    && AllLabels(Split(halves[0], '.'))
    && var domain := Split(halves[1], '.');
       && |domain| >= 2
       && AllLabels(domain)
       && IsTopLevel(domain[|domain| - 1])
  }

  /** The mail pattern with its trailing `$`. */
  predicate MailMatches(t: string) {
    MailShape(t) || (|t| > 0 && t[|t| - 1] == '\n' && MailShape(t[..|t| - 1]))
  }

  /**
   * The language of the mail pattern built the way the pattern reads: local
   * labels joined by dots, `@`, domain labels each followed by a dot, and a
   * top-level part.
   */
  ghost predicate MailBuilt(t: string) {
    exists local: seq<string>, domain: seq<string>, tld: string ::
      && |local| >= 1 && AllLabels(local)
      && |domain| >= 1 && AllLabels(domain)
      && IsTopLevel(tld)
      && t == Join(local, '.') + "@" + Join(domain + [tld], '.')
  }

  /** A join of labels holds neither `@` nor anything but label characters and dots. */
  lemma LabelsJoinChars(parts: seq<string>, c: char)
    requires |parts| >= 1 && AllLabels(parts) && c in Join(parts, '.')
    ensures c == '.' || IsLabelChar(c)
  {
    JoinChars(parts, '.', c);
    if c != '.' {
      var k :| 0 <= k < |parts| && c in parts[k];
      var i :| 0 <= i < |parts[k]| && parts[k][i] == c;
    }
  }

  /** Splitting a join of labels at the dots gives the labels back. */
  lemma LabelsJoinSplit(parts: seq<string>)
    requires |parts| >= 1 && AllLabels(parts)
    ensures Split(Join(parts, '.'), '.') == parts
  {
    forall k | 0 <= k < |parts| ensures '.' !in parts[k] {
      assert forall i :: 0 <= i < |parts[k]| ==> parts[k][i] != '.';
    }
    JoinSplit(parts, '.');
  }

  /** Every text of the mail shape is generated by the pattern. */
  lemma MailShapeBuilt(t: string)
    requires MailShape(t)
    ensures MailBuilt(t)
  {
    var halves := Split(t, '@');
    SplitJoin(t, '@');
    assert t == halves[0] + "@" + halves[1];
    var local, all := Split(halves[0], '.'), Split(halves[1], '.');
    SplitJoin(halves[0], '.');
    SplitJoin(halves[1], '.');
    var domain, tld := all[..|all| - 1], all[|all| - 1];
    assert all == domain + [tld];
    assert t == Join(local, '.') + "@" + Join(domain + [tld], '.');
  }

  /** Two dot-joined label lists around one `@` split back into their halves and labels. */
  lemma LabelHalvesSplit(local: seq<string>, all: seq<string>)
    requires |local| >= 1 && AllLabels(local) && |all| >= 1 && AllLabels(all)
    ensures Split(Join(local, '.') + "@" + Join(all, '.'), '@') == [Join(local, '.'), Join(all, '.')]
  {
    var a, b := Join(local, '.'), Join(all, '.');
    forall c | c in a ensures c != '@' {
      LabelsJoinChars(local, c);
    }
    forall c | c in b ensures c != '@' {
      LabelsJoinChars(all, c);
    }
    SplitAbsent(a, '@');
    SplitAbsent(b, '@');
    SplitAppend(a, b, '@');
  }

  /** Every text the pattern generates has the mail shape. */
  lemma BuiltMailShape(local: seq<string>, domain: seq<string>, tld: string)
    requires |local| >= 1 && AllLabels(local)
    requires |domain| >= 1 && AllLabels(domain)
    requires IsTopLevel(tld)
    ensures MailShape(Join(local, '.') + "@" + Join(domain + [tld], '.'))
  {
    var all := domain + [tld];
    assert AllLabels(all) by {
      forall k | 0 <= k < |all| ensures IsLabel(all[k]) {
        if k == |domain| {
          assert all[k] == tld;
        } else {
          assert all[k] == domain[k];
        }
      }
    }
    LabelHalvesSplit(local, all);
    LabelsJoinSplit(local);
    LabelsJoinSplit(all);
  }

  /** The split-based reading of the mail pattern and the generative one agree. */
  lemma MailShapeIffBuilt(t: string)
    ensures MailShape(t) <==> MailBuilt(t)
  {
    if MailShape(t) {
      MailShapeBuilt(t);
    }
    if MailBuilt(t) {
      var local: seq<string>, domain: seq<string>, tld: string :|
        && |local| >= 1 && AllLabels(local)
        && |domain| >= 1 && AllLabels(domain)
        && IsTopLevel(tld)
        && t == Join(local, '.') + "@" + Join(domain + [tld], '.');
      BuiltMailShape(local, domain, tld);
    }
  }

  /**
   * `acquire_mail_address`: rejected without `notification_fields` or without
   * `mail_address` inside it; otherwise the lower-cased address when it
   * matches the mail pattern, and rejected when it does not.
   */
  function AcquireMailAddress(request: Request): (r: MailResult)
    ensures NotificationFields !in request ==> r == Rejected
    ensures NotificationFields in request && MailAddressField !in request[NotificationFields] ==> r == Rejected
    ensures r.Accepted? <==>
              && NotificationFields in request
              && MailAddressField in request[NotificationFields]
              && MailMatches(Lower(request[NotificationFields][MailAddressField]))
    ensures r.Accepted? ==> r.address == Lower(request[NotificationFields][MailAddressField])
  {
    if NotificationFields !in request then Rejected
    else if MailAddressField !in request[NotificationFields] then Rejected
    else
      var mailString := Lower(request[NotificationFields][MailAddressField]);
      if !MailMatches(mailString) then Rejected
      else Accepted(mailString)
  }

  /** An accepted address holds exactly one `@` and no upper-case letter. */
  lemma AcceptedAddressShape(request: Request)
    requires AcquireMailAddress(request).Accepted?
    ensures Count(AcquireMailAddress(request).address, '@') == 1
    ensures forall k :: 0 <= k < |AcquireMailAddress(request).address| ==>
              !IsAsciiUpper(AcquireMailAddress(request).address[k])
  {
    var t := AcquireMailAddress(request).address;
    LowerIdempotent(request[NotificationFields][MailAddressField]);
    if MailShape(t) {
      SplitCount(t, '@');
    } else {
      var body := t[..|t| - 1];
      assert t == body + "\n";
      SplitCount(body, '@');
      CountAppend(body, "\n", '@');
    }
  }

  /** The request that carries just `address`. */
  function MailRequest(address: string): Request {
    map[NotificationFields := map[MailAddressField := address]]
  }

  /** A request carrying an accepted address yields that same address again. */
  lemma AcquireMailAddressIdempotent(request: Request)
    requires AcquireMailAddress(request).Accepted?
    ensures var address := AcquireMailAddress(request).address;
            AcquireMailAddress(MailRequest(address)) == Accepted(address)
  {
    LowerIdempotent(request[NotificationFields][MailAddressField]);
  }

  /** One trailing newline is accepted too, and it stays in the returned address. */
  lemma MailTrailingNewline(raw: string)
    requires MailShape(Lower(raw))
    ensures AcquireMailAddress(MailRequest(raw + "\n")) == Accepted(Lower(raw) + "\n")
  {
    var t := Lower(raw + "\n");
    assert t == Lower(raw) + "\n";
    assert t[..|t| - 1] == Lower(raw);
  }

  /** `local@host.tld` with one label on each side of the `@` matches. */
  lemma SimpleAddressMatches(local: string, host: string, tld: string)
    requires IsLabel(local) && IsLabel(host) && IsTopLevel(tld)
    ensures MailShape(local + "@" + host + "." + tld)
  {
    assert IsLabel(tld) by {
      assert forall k :: 0 <= k < |tld| ==> IsLabelChar(tld[k]);
    }
    assert Join([host] + [tld], '.') == host + "." + tld by {
      assert ([host] + [tld])[1..] == [tld];
    }
    assert local + "@" + host + "." + tld == Join([local], '.') + "@" + Join([host] + [tld], '.');
    MailShapeIffBuilt(local + "@" + host + "." + tld);
  }

  /** Mixed case is folded before the pattern is applied. */
  lemma MailFolded(raw: string)
    requires raw == "Jo@Ex.org"
    ensures AcquireMailAddress(MailRequest(raw)) == Accepted("jo@ex.org")
  {
    assert Lower(raw) == "jo@ex.org";
    SimpleAddressMatches("jo", "ex", "org");
    assert "jo" + "@" + "ex" + "." + "org" == "jo@ex.org";
  }

  /** A one-letter top-level part is rejected. */
  lemma MailShortTopLevelRejected(raw: string)
    requires raw == "jo@ex.o"
    ensures AcquireMailAddress(MailRequest(raw)) == Rejected
  {
    assert Lower(raw) == raw;
    SplitAbsent("jo", '@');
    SplitAbsent("ex.o", '@');
    SplitAppend("jo", "ex.o", '@');
    assert raw == "jo" + "@" + "ex.o";
    SplitAbsent("ex", '.');
    SplitAbsent("o", '.');
    SplitAppend("ex", "o", '.');
    assert "ex.o" == "ex" + "." + "o";
  }

  /** `[0-9a-z]` */
  predicate IsOnionChar(c: char) {
    ('0' <= c <= '9') || ('a' <= c <= 'z')
  }

  /** Characters of the name in front of `.onion`. */
  const OnionNameLength: nat := 16
  const OnionSuffix: string := ".onion"

  /** `[0-9a-z]{16}\.onion` against the whole text. */
  predicate OnionShape(t: string) {
    && |t| == OnionNameLength + |OnionSuffix|
    && (forall k :: 0 <= k < OnionNameLength ==> IsOnionChar(t[k]))
    && t[OnionNameLength..] == OnionSuffix
  }

  /** The onion pattern with its trailing `$`. */
  predicate OnionMatches(t: string) {
    OnionShape(t) || (|t| > 0 && t[|t| - 1] == '\n' && OnionShape(t[..|t| - 1]))
  }

  /** Length of the longest prefix of word characters: where a greedy `\w+` stops. */
  function WordRun(s: string): nat
    decreases |s|
  {
    if s != [] && IsWordChar(s[0]) then 1 + WordRun(s[1..]) else 0
  }

  lemma {:induction false} WordRunShape(s: string)
    ensures WordRun(s) <= |s|
    ensures forall k :: 0 <= k < WordRun(s) ==> IsWordChar(s[k])
    ensures WordRun(s) < |s| ==> !IsWordChar(s[WordRun(s)])
    decreases |s|
  {
    if s != [] && IsWordChar(s[0]) {
      WordRunShape(s[1..]);
    }
  }

  /** A run of word characters ended by a non-word character is exactly the greedy run. */
  lemma {:induction false} WordRunExact(s: string, n: nat)
    requires n < |s| && !IsWordChar(s[n])
    requires forall k :: 0 <= k < n ==> IsWordChar(s[k])
    ensures WordRun(s) == n
    decreases n
  {
    if n > 0 {
      WordRunExact(s[1..], n - 1);
    }
  }

  /** `.*$`: no newline, except possibly one that ends the text. */
  predicate RestOfLine(t: string) {
    forall k :: 0 <= k < |t| - 1 ==> t[k] != '\n'
  }

  /** `(\w+)\.(.*)$` matched right after the scheme. */
  predicate HostRest(r: string) {
    var n := WordRun(r);
    0 < n < |r| && r[n] == '.' && RestOfLine(r[n + 1..])
  }

  /**
   * Backtracking cannot help `(\w+)\.`: the pattern matches after the scheme
   * exactly when some non-empty run of word characters is followed by a dot
   * and the rest of the line.
   */
  lemma HostRestIffSomeRun(r: string)
    ensures HostRest(r) <==>
              exists n :: 0 < n < |r| && (forall k :: 0 <= k < n ==> IsWordChar(r[k])) && r[n] == '.' && RestOfLine(r[n + 1..])
  {
    WordRunShape(r);
    if exists n :: 0 < n < |r| && (forall k :: 0 <= k < n ==> IsWordChar(r[k])) && r[n] == '.' && RestOfLine(r[n + 1..]) {
      var n :| 0 < n < |r| && (forall k :: 0 <= k < n ==> IsWordChar(r[k])) && r[n] == '.' && RestOfLine(r[n + 1..]);
      WordRunExact(r, n);
    }
  }

  const HttpScheme: string := "http://"
  const HttpsScheme: string := "https://"

  /** `http(s?)://(\w+)\.(.*)$` against the text. */
  predicate HttpMatches(t: string) {
    || (StartsWith(t, HttpScheme) && HostRest(t[|HttpScheme|..]))
    || (StartsWith(t, HttpsScheme) && HostRest(t[|HttpsScheme|..]))
  }

  /**
   * `acquire_url_address`: accepted when hidden services are allowed and the
   * text is an onion name, or when http is allowed and the text is an http(s)
   * URL.
   */
  function AcquireUrlAddress(inputString: string, hiddenService: bool, http: bool): (accepted: bool)
    ensures !hiddenService && !http ==> !accepted
    ensures hiddenService && OnionMatches(inputString) ==> accepted
    ensures http && HttpMatches(inputString) ==> accepted
    ensures accepted ==> (hiddenService && OnionMatches(inputString)) || (http && HttpMatches(inputString))
  {
    var onion := hiddenService && OnionMatches(inputString);
    var web := http && HttpMatches(inputString);
    onion || web
  }

  /** No text is both an onion name and an http URL. */
  lemma OnionAndHttpDisjoint(t: string)
    ensures !(OnionMatches(t) && HttpMatches(t))
  {
    if StartsWith(t, HttpScheme) {
      assert t[4] == t[..|HttpScheme|][4] == ':';
    }
    if StartsWith(t, HttpsScheme) {
      assert t[5] == t[..|HttpsScheme|][5] == ':';
    }
  }

  /** One trailing newline is accepted after an onion name. */
  lemma OnionTrailingNewline(t: string)
    requires OnionShape(t)
    ensures AcquireUrlAddress(t + "\n", true, false)
  {
    assert (t + "\n")[..|t + "\n"| - 1] == t;
  }

  /** An onion name passes only when hidden services are allowed. */
  lemma OnionExample(t: string)
    requires t == "abcdefghij234567.onion"
    ensures AcquireUrlAddress(t, true, false)
    ensures !AcquireUrlAddress(t, false, true)
  {
    assert t[OnionNameLength..] == OnionSuffix;
    OnionAndHttpDisjoint(t);
  }

  /** An https URL passes only when http is allowed. */
  lemma HttpsExample(t: string)
    requires t == "https://ex.org/a"
    ensures AcquireUrlAddress(t, false, true)
    ensures !AcquireUrlAddress(t, true, false)
  {
    assert t[..|HttpsScheme|] == HttpsScheme;
    var rest := t[|HttpsScheme|..];
    assert rest == "ex.org/a";
    WordRunExact(rest, 2);
    assert rest[3..] == "org/a";
    OnionAndHttpDisjoint(t);
  }

  /** The host part needs at least one word character before its dot. */
  lemma EmptyHostRejected(t: string)
    requires t == "http://.org"
    ensures !AcquireUrlAddress(t, true, true)
  {
    assert t[..|HttpScheme|] == HttpScheme;
    assert t[|HttpScheme|..] == ".org";
    assert !StartsWith(t, HttpsScheme) by {
      assert t[4] == ':';
    }
    assert !OnionShape(t) && !OnionShape(t[..|t| - 1]);
  }
}
