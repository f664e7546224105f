/**
 * Recipient resolution (`convert_email`, `convert_emails`): recipient descriptors from the job
 * description, with their templates expanded, become an ordered sequence of mail addresses.
 */
module Addresses {
  import opened Wrappers
  import opened Values
  import Text

  /** A mail address: an optional display name and the address itself (`addr_spec`). */
  datatype Address = Address(name: Option<string>, addrSpec: string)

  /**
   * A recipient descriptor: `email` and the optional `name` are template texts; the optional
   * `semicolon_separated` flag counts as set only when present and true.
   */
  datatype Descriptor = Descriptor(name: Option<string>, email: string, semicolonSeparated: Option<bool>)

  /** Expansion of a template against the row's context; `None` when rendering raises. */
  type Expand = string -> Option<string>

  /** Each segment with its surrounding whitespace stripped, as `email.strip()` does. */
  function StripAll(segments: seq<string>): seq<string>
  {
    seq(|segments|, i requires 0 <= i < |segments| => Text.Strip(Text.IsPySpace, segments[i]))
  }

  /**
   * `Address(addr_spec=email) for email in emails if email`: one nameless address per non-empty
   * email, in order.
   */
  function Nameless(emails: seq<string>): (r: seq<Address>)
    ensures |r| <= |emails|
  {
    if |emails| == 0 then []
    else (if emails[0] == "" then [] else [Address(None, emails[0])]) + Nameless(emails[1..])
  }

  /** Every address is nameless with a non-empty email of the list, and every non-empty email gives one. */
  lemma {:induction false} NamelessMembers(emails: seq<string>)
    ensures forall a :: a in Nameless(emails) ==> a.name == None && a.addrSpec != "" && a.addrSpec in emails
    ensures forall e :: e in emails && e != "" ==> Address(None, e) in Nameless(emails)
    decreases |emails|
  {
    if |emails| > 0 {
      NamelessMembers(emails[1..]);
      Text.Uncons(emails);
    }
  }

  /** Filtering distributes over concatenation, so the order of the emails is kept. */
  lemma {:induction false} NamelessConcat(a: seq<string>, b: seq<string>)
    ensures Nameless(a + b) == Nameless(a) + Nameless(b)
    decreases |a|
  {
    if |a| > 0 {
      var head := if a[0] == "" then [] else [Address(None, a[0])];
      assert (a + b)[0] == a[0] && (a + b)[1..] == a[1..] + b;
      assert Nameless(a + b) == head + Nameless(a[1..] + b);
      NamelessConcat(a[1..], b);
      assert Nameless(a) == head + Nameless(a[1..]);
    } else {
      assert a + b == b;
    }
  }

  /** With no empty email, the i-th email gives the i-th address. */
  lemma {:induction false} NamelessNoEmpty(emails: seq<string>)
    requires "" !in emails
    ensures |Nameless(emails)| == |emails|
    ensures forall i :: 0 <= i < |emails| ==> Nameless(emails)[i] == Address(None, emails[i])
    decreases |emails|
  {
    if |emails| > 0 {
      NamelessNoEmpty(emails[1..]);
    }
  }

  /**
   * `Address(name, addr_spec=email) for name, email in zip(names, emails) if email`: names and
   * emails paired by position, pairs with an empty email dropped.
   */
  function Paired(names: seq<string>, emails: seq<string>): (r: seq<Address>)
    requires |names| == |emails|
    ensures |r| <= |emails|
  {
    if |emails| == 0 then []
    else
      (if emails[0] == "" then [] else [Address(Some(names[0]), emails[0])]) + Paired(names[1..], emails[1..])
  }

  /**
   * Every address pairs the name and the non-empty email at one position, and every position with
   * a non-empty email gives one.
   */
  lemma {:induction false} PairedMembers(names: seq<string>, emails: seq<string>)
    requires |names| == |emails|
    ensures forall a :: a in Paired(names, emails) ==>
              exists i :: 0 <= i < |emails| && emails[i] != "" && a == Address(Some(names[i]), emails[i])
    ensures forall i :: 0 <= i < |emails| && emails[i] != "" ==> Address(Some(names[i]), emails[i]) in Paired(names, emails)
    decreases |emails|
  {
    if |emails| > 0 {
      var rest := Paired(names[1..], emails[1..]);
      PairedMembers(names[1..], emails[1..]);
      forall a | a in rest
        ensures exists i :: 0 <= i < |emails| && emails[i] != "" && a == Address(Some(names[i]), emails[i])
      {
        var j :| 0 <= j < |emails| - 1 && emails[1..][j] != "" && a == Address(Some(names[1..][j]), emails[1..][j]);
        assert emails[j + 1] != "" && a == Address(Some(names[j + 1]), emails[j + 1]);
      }
      forall i | 1 <= i < |emails| && emails[i] != "" ensures Address(Some(names[i]), emails[i]) in rest {
        assert emails[1..][i - 1] == emails[i] && names[1..][i - 1] == names[i];
      }
    }
  }

  /** Pairing distributes over concatenation, so the kept pairs come in zip order, once each. */
  lemma {:induction false} PairedConcat(n1: seq<string>, e1: seq<string>, n2: seq<string>, e2: seq<string>)
    requires |n1| == |e1| && |n2| == |e2|
    ensures Paired(n1 + n2, e1 + e2) == Paired(n1, e1) + Paired(n2, e2)
    decreases |e1|
  {
    if |e1| > 0 {
      var head := if e1[0] == "" then [] else [Address(Some(n1[0]), e1[0])];
      assert (n1 + n2)[0] == n1[0] && (n1 + n2)[1..] == n1[1..] + n2;
      assert (e1 + e2)[0] == e1[0] && (e1 + e2)[1..] == e1[1..] + e2;
      assert Paired(n1 + n2, e1 + e2) == head + Paired(n1[1..] + n2, e1[1..] + e2);
      PairedConcat(n1[1..], e1[1..], n2, e2);
      assert Paired(n1, e1) == head + Paired(n1[1..], e1[1..]);
    } else {
      assert n1 + n2 == n2 && e1 + e2 == e2;
    }
  }

  /** A single position gives its pair exactly when its email is non-empty. */
  lemma PairedOne(name: string, email: string)
    ensures Paired([name], [email]) == if email == "" then [] else [Address(Some(name), email)]
  {
    assert Paired([name], [email]) == (if email == "" then [] else [Address(Some(name), email)]) + Paired([], []);
  }

  /** With no empty email, the i-th address pairs the i-th name with the i-th email. */
  lemma {:induction false} PairedNoEmpty(names: seq<string>, emails: seq<string>)
    requires |names| == |emails|
    requires "" !in emails
    ensures |Paired(names, emails)| == |emails|
    ensures forall i :: 0 <= i < |emails| ==> Paired(names, emails)[i] == Address(Some(names[i]), emails[i])
    decreases |emails|
  {
    if |emails| > 0 {
      PairedNoEmpty(names[1..], emails[1..]);
    }
  }

  /** The addresses one descriptor yields, or the exception its conversion raises. */
  function ConvertEmail(expand: Expand, d: Descriptor): Result<seq<Address>, Error>
  {
    if d.semicolonSeparated == Some(true) then
      match expand(d.email)
      case None => Err(Template(d.email))
      case Some(e) =>
        var emails := StripAll(Text.Split(e, ';'));
        match d.name
        case None => Ok(Nameless(emails))
        case Some(nameTemplate) =>
          match expand(nameTemplate)
          case None => Err(Template(nameTemplate))
          case Some(n) =>
            var names := Text.Split(n, ';');
            if |names| != |emails| then Err(NameEmailCount(|names|, |emails|))
            else Ok(Paired(names, emails))
    else
      match expand(d.email)
      case None => Err(Template(d.email))
      case Some(e) =>
        if e == "" then Ok([])
        else
          match d.name
          case None => Ok([Address(None, e)])
          case Some(nameTemplate) =>
            match expand(nameTemplate)
            case None => Err(Template(nameTemplate))
            case Some(n) => Ok([Address(Some(n), e)])
  }

  /** Stripping adds no character: one absent from a text is absent from its stripped form. */
  lemma StripAddsNothing(s: string, c: char)
    requires c !in s
    ensures c !in Text.Strip(Text.IsPySpace, s)
  {
    var r := Text.Strip(Text.IsPySpace, s);
    var i := Text.LeadingSpaces(Text.IsPySpace, s);
    forall j | 0 <= j < |r| ensures r[j] != c {
      assert s[i + j] == r[j];
    }
  }

  /** Stripped separator-free pieces are separator-free and stripped already. */
  lemma SegmentsClean(parts: seq<string>, c: char)
    requires forall i :: 0 <= i < |parts| ==> c !in parts[i]
    ensures forall i :: 0 <= i < |parts| ==>
              c !in StripAll(parts)[i] && Text.Strip(Text.IsPySpace, StripAll(parts)[i]) == StripAll(parts)[i]
  {
    forall i | 0 <= i < |parts|
      ensures c !in StripAll(parts)[i] && Text.Strip(Text.IsPySpace, StripAll(parts)[i]) == StripAll(parts)[i]
    {
      StripAddsNothing(parts[i], c);
      Text.StripIdempotent(Text.IsPySpace, parts[i]);
    }
  }

  /**
   * Semicolon-separated, no name: the expanded email text is split on ';' and each segment
   * stripped; every non-empty segment gives one nameless address, in order, and only those do.
   */
  lemma SemicolonWithoutName(expand: Expand, d: Descriptor)
    requires d.semicolonSeparated == Some(true) && d.name == None && expand(d.email).Some?
    ensures var segments := StripAll(Text.Split(expand(d.email).value, ';'));
            ConvertEmail(expand, d) == Ok(Nameless(segments)) &&
            forall i :: 0 <= i < |segments| && segments[i] != "" ==>
              Address(None, segments[i]) in ConvertEmail(expand, d).value
    ensures forall a :: a in ConvertEmail(expand, d).value ==>
              && a.name == None
              && a.addrSpec != ""
              && ';' !in a.addrSpec
              && Text.Strip(Text.IsPySpace, a.addrSpec) == a.addrSpec
  {
    var e := expand(d.email).value;
    var parts := Text.Split(e, ';');
    SemicolonNamelessIs(expand, d, e);
    Text.SplitPieces(e, ';');
    SegmentsClean(parts, ';');
    NamelessMembers(StripAll(parts));
  }

  /**
   * Semicolon-separated with a name: the split names (not stripped) and the stripped emails must
   * come in equal numbers, which is to say the two expanded texts hold equally many ';'; otherwise
   * the conversion fails instead of truncating. When they match, every address pairs the name and
   * the email at one position, and every non-empty email is kept.
   */
  lemma SemicolonWithName(expand: Expand, d: Descriptor)
    requires d.semicolonSeparated == Some(true) && d.name.Some?
    requires expand(d.email).Some? && expand(d.name.value).Some?
    ensures var e := expand(d.email).value;
            var n := expand(d.name.value).value;
            ConvertEmail(expand, d).Err? <==> multiset(n)[';'] != multiset(e)[';']
    ensures var names := Text.Split(expand(d.name.value).value, ';');
            var emails := StripAll(Text.Split(expand(d.email).value, ';'));
            && (|names| != |emails| ==> ConvertEmail(expand, d) == Err(NameEmailCount(|names|, |emails|)))
            && (|names| == |emails| ==>
                  && ConvertEmail(expand, d) == Ok(Paired(names, emails))
                  && (forall a :: a in Paired(names, emails) ==>
                        exists i :: 0 <= i < |emails| && emails[i] != "" && a == Address(Some(names[i]), emails[i]))
                  && (forall i :: 0 <= i < |emails| && emails[i] != "" ==>
                        Address(Some(names[i]), emails[i]) in Paired(names, emails)))
  {
    var names := Text.Split(expand(d.name.value).value, ';');
    var emails := StripAll(Text.Split(expand(d.email).value, ';'));
    Text.SplitPieces(expand(d.name.value).value, ';');
    Text.SplitPieces(expand(d.email).value, ';');
    if |names| == |emails| {
      PairedMembers(names, emails);
    }
  }

  /**
   * Without semicolon splitting: an empty expanded email gives no address (and the name is never
   * expanded); otherwise exactly one address with the unstripped email, named iff a name is given.
   */
  lemma SingleAddress(expand: Expand, d: Descriptor)
    requires d.semicolonSeparated != Some(true) && expand(d.email).Some?
    ensures var e := expand(d.email).value;
            && (e == "" ==> ConvertEmail(expand, d) == Ok([]))
            && (e != "" && d.name == None ==> ConvertEmail(expand, d) == Ok([Address(None, e)]))
            && (e != "" && d.name.Some? && expand(d.name.value).Some? ==>
                  ConvertEmail(expand, d) == Ok([Address(expand(d.name.value), e)]))
            && (e != "" && d.name.Some? && expand(d.name.value).None? ==>
                  ConvertEmail(expand, d) == Err(Template(d.name.value)))
    ensures ConvertEmail(expand, d).Ok? ==>
              |ConvertEmail(expand, d).value| <= 1 &&
              forall a :: a in ConvertEmail(expand, d).value ==> (a.name.Some? <==> d.name.Some?)
  {
  }

  /** The email template is always expanded first; when that raises, the descriptor fails. */
  lemma EmailExpandedFirst(expand: Expand, d: Descriptor)
    requires expand(d.email).None?
    ensures ConvertEmail(expand, d) == Err(Template(d.email))
  {
  }

  /** Concatenation of two conversions: the first error in order wins. */
  function Then(x: Result<seq<Address>, Error>, y: Result<seq<Address>, Error>): Result<seq<Address>, Error>
  {
    match x
    case Err(e) => Err(e)
    case Ok(u) =>
      match y
      case Err(e) => Err(e)
      case Ok(v) => Ok(u + v)
  }

  /** The addresses of a descriptor list: each descriptor's addresses, concatenated in order. */
  function ConvertAll(expand: Expand, ds: seq<Descriptor>): Result<seq<Address>, Error>
  {
    if |ds| == 0 then Ok([])
    else Then(ConvertEmail(expand, ds[0]), ConvertAll(expand, ds[1..]))
  }

  /** `convert_emails`: an absent list gives no address. */
  function ConvertEmails(expand: Expand, list: Option<seq<Descriptor>>): (r: Result<seq<Address>, Error>)
    ensures list == None ==> r == Ok([])
  {
    match list
    case None => Ok([])
    case Some(ds) => ConvertAll(expand, ds)
  }

  /** Converting a split list is converting both halves: order is kept and the first error wins. */
  lemma {:induction false} ConvertAllConcat(expand: Expand, a: seq<Descriptor>, b: seq<Descriptor>)
    ensures ConvertAll(expand, a + b) == Then(ConvertAll(expand, a), ConvertAll(expand, b))
    decreases |a|
  {
    if |a| == 0 {
      assert a + b == b;
      match ConvertAll(expand, b)
      case Ok(v) => assert [] + v == v;
      case Err(_) =>
    } else {
      assert (a + b)[0] == a[0];
      assert (a + b)[1..] == a[1..] + b;
      ConvertAllConcat(expand, a[1..], b);
      match ConvertEmail(expand, a[0])
      case Err(_) =>
      case Ok(u) =>
        match ConvertAll(expand, a[1..])
        case Err(_) =>
        case Ok(v) =>
          match ConvertAll(expand, b)
          case Err(_) =>
          case Ok(w) => assert u + (v + w) == (u + v) + w;
    }
  }

  /**
   * The list converts exactly when every descriptor does, and then the result is the
   * descriptors' addresses in list order.
   */
  lemma {:induction false} ConvertAllOk(expand: Expand, ds: seq<Descriptor>)
    ensures ConvertAll(expand, ds).Ok? <==> forall i :: 0 <= i < |ds| ==> ConvertEmail(expand, ds[i]).Ok?
    ensures |ds| > 0 && ConvertAll(expand, ds).Ok? ==>
              ConvertAll(expand, ds).value ==
              ConvertEmail(expand, ds[0]).value + ConvertAll(expand, ds[1..]).value
    decreases |ds|
  {
    if |ds| > 0 {
      ConvertAllOk(expand, ds[1..]);
      assert forall i :: 1 <= i < |ds| ==> ds[1..][i - 1] == ds[i];
    }
  }

  /** The identity expansion, to state examples over literal descriptors. */
  function Verbatim(s: string): Option<string> { Some(s) }

  /** `{name: "A", email: "a@x.com"}` gives exactly the address `A <a@x.com>`. */
  lemma ExampleNamedAddress()
    ensures ConvertEmail(Verbatim, Descriptor(Some("A"), "a@x.com", None)) == Ok([Address(Some("A"), "a@x.com")])
  {
  }

  /** The conversion of a semicolon-separated, nameless descriptor whose email expands to `e`. */
  lemma SemicolonNamelessIs(expand: Expand, d: Descriptor, e: string)
    requires d.semicolonSeparated == Some(true) && d.name == None && expand(d.email) == Some(e)
    ensures ConvertEmail(expand, d) == Ok(Nameless(StripAll(Text.Split(e, ';'))))
  {
  }

  /** Two emails without ';' or surrounding whitespace survive splitting and stripping as they are. */
  lemma CleanSegments(a: string, b: string)
    requires a != "" && b != "" && ';' !in a && ';' !in b
    requires !Text.IsPySpace(a[0]) && !Text.IsPySpace(a[|a| - 1])
    requires !Text.IsPySpace(b[0]) && !Text.IsPySpace(b[|b| - 1])
    ensures Nameless(StripAll(Text.Split(a + [';'] + b, ';'))) == [Address(None, a), Address(None, b)]
  {
    SplitTwo(a, b);
    StripTwo(a, b);
    NamelessTwo(a, b);
  }

  /** Two non-empty emails give two nameless addresses, in order. */
  lemma NamelessTwo(a: string, b: string)
    requires a != "" && b != ""
    ensures Nameless([a, b]) == [Address(None, a), Address(None, b)]
  {
    assert [a, b][1..] == [b];
    assert [b][1..] == [];
  }

  /** Two separator-free texts joined by ';' split back into the two. */
  lemma SplitTwo(a: string, b: string)
    requires ';' !in a && ';' !in b
    ensures Text.Split(a + [';'] + b, ';') == [a, b]
  {
    Text.SplitPrefix(a, b, ';');
    Text.SplitFree(b, ';');
  }

  /** Two texts that start and end with non-whitespace are left as they are by stripping. */
  lemma StripTwo(a: string, b: string)
    requires a != "" && b != ""
    requires !Text.IsPySpace(a[0]) && !Text.IsPySpace(a[|a| - 1])
    requires !Text.IsPySpace(b[0]) && !Text.IsPySpace(b[|b| - 1])
    ensures StripAll([a, b]) == [a, b]
  {
    Text.StripFixedPoint(Text.IsPySpace, a);
    Text.StripFixedPoint(Text.IsPySpace, b);
  }

  /**
   * Two clean emails separated by ';' give two nameless addresses, in order: the shape of the
   * example below, stated for any two emails.
   */
  lemma TwoSemicolonEmails(a: string, b: string)
    requires a != "" && b != "" && ';' !in a && ';' !in b
    requires !Text.IsPySpace(a[0]) && !Text.IsPySpace(a[|a| - 1])
    requires !Text.IsPySpace(b[0]) && !Text.IsPySpace(b[|b| - 1])
    ensures ConvertEmail(Verbatim, Descriptor(None, a + [';'] + b, Some(true)))
            == Ok([Address(None, a), Address(None, b)])
  {
    SemicolonNamelessIs(Verbatim, Descriptor(None, a + [';'] + b, Some(true)), a + [';'] + b);
    CleanSegments(a, b);
  }

  /** `{email: "a@x.com;b@x.com", semicolon_separated: true}` gives two nameless addresses. */
  lemma ExampleSemicolonList()
    ensures ConvertEmail(Verbatim, Descriptor(None, "a@x.com;b@x.com", Some(true)))
            == Ok([Address(None, "a@x.com"), Address(None, "b@x.com")])
  {
    assert "a@x.com;b@x.com" == "a@x.com" + [';'] + "b@x.com";
    TwoSemicolonEmails("a@x.com", "b@x.com");
  }

  /**
   * Two names for one email fail with a count error rather than dropping a name, whatever the
   * texts, as long as neither contains a further ';'.
   */
  lemma TwoNamesOneEmail(n1: string, n2: string, e: string)
    requires ';' !in n1 && ';' !in n2 && ';' !in e
    ensures ConvertEmail(Verbatim, Descriptor(Some(n1 + [';'] + n2), e, Some(true))) == Err(NameEmailCount(2, 1))
  {
    Text.SplitPrefix(n1, n2, ';');
    Text.SplitFree(n2, ';');
    Text.SplitFree(e, ';');
  }

  /** `{name: "A;B", email: "a@x.com", semicolon_separated: true}` fails with a count error. */
  lemma ExampleCountMismatch()
    ensures ConvertEmail(Verbatim, Descriptor(Some("A;B"), "a@x.com", Some(true))) == Err(NameEmailCount(2, 1))
  {
    assert "A;B" == "A" + [';'] + "B";
    TwoNamesOneEmail("A", "B", "a@x.com");
  }
}
