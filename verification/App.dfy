/**
 * The search button of the application: the comma-separated code list is
 * tokenised, each code is looked up in order, the lookups that gave a record
 * are kept, and the handler takes the warning branch (no codes), the error
 * branch (no records) or the card branch with the records. The card code
 * itself is not modelled.
 */
module App {
  import opened Wrappers
  import opened PyStr
  import opened Scraper

  /** The strip-and-filter step of the comprehension: each piece stripped,
      the pieces left empty dropped, the rest kept in order. */
  function Clean(pieces: seq<string>): (codes: seq<string>)
    ensures |codes| <= |pieces|
    ensures forall c :: c in codes ==> c != [] && IsStripped(c)
  {
    if pieces == [] then []
    else
      var code := Strip(pieces[0]);
      if code != [] then [code] + Clean(pieces[1..]) else Clean(pieces[1..])
  }

  /** Nothing is left exactly when every piece is blank. */
  lemma {:induction false} CleanEmpty(pieces: seq<string>)
    ensures Clean(pieces) == [] <==> forall i :: 0 <= i < |pieces| ==> AllSpace(pieces[i])
    decreases |pieces|
  {
    if pieces != [] {
      CleanEmpty(pieces[1..]);
      assert forall i :: 1 <= i < |pieces| ==> pieces[1..][i - 1] == pieces[i];
    }
  }

  /** `[c.strip() for c in text.split(',') if c.strip()]`: every code is
      non-empty, has no whitespace at either end and no comma, and there is at
      most one more code than there are commas. */
  function Tokenise(text: string): (codes: seq<string>)
    ensures forall c :: c in codes ==> c != [] && IsStripped(c) && ',' !in c
    ensures |codes| <= Count(text, ',') + 1
  {
    var pieces := Split(text, ',');
    assert forall c :: c in Clean(pieces) ==> ',' !in c by {
      forall c | c in Clean(pieces) ensures ',' !in c {
        var p := CleanSource(pieces, c);
        if ',' in c { StripSubset(p, ','); }
      }
    }
    Clean(pieces)
  }

  /** No code at all exactly when every comma-separated piece is blank; the empty
      text is one such input. */
  lemma {:induction false} TokeniseEmpty(text: string)
    ensures Tokenise(text) == [] <==> forall p :: p in Split(text, ',') ==> AllSpace(p)
    ensures text == [] ==> Tokenise(text) == []
  {
    var pieces := Split(text, ',');
    CleanEmpty(pieces);
    assert Tokenise(text) == Clean(pieces);
    assert (forall p :: p in pieces ==> AllSpace(p)) <==> forall i :: 0 <= i < |pieces| ==> AllSpace(pieces[i]);
    if text == [] {
      assert pieces == [[]];
      assert AllSpace(pieces[0]);
    }
  }

  /** Every code kept is the stripped form of one of the pieces. */
  lemma {:induction false} CleanSource(pieces: seq<string>, c: string) returns (p: string)
    requires c in Clean(pieces)
    ensures p in pieces && Strip(p) == c
    decreases |pieces|
  {
    if Strip(pieces[0]) == c {
      p := pieces[0];
    } else {
      p := CleanSource(pieces[1..], c);
    }
  }

  /** Conversely, every piece that is not blank gives a code. */
  lemma {:induction false} CleanKeeps(pieces: seq<string>, i: nat)
    requires i < |pieces| && !AllSpace(pieces[i])
    ensures Strip(pieces[i]) in Clean(pieces)
    decreases i
  {
    if i > 0 {
      CleanKeeps(pieces[1..], i - 1);
    }
  }

  /** Order is kept: the codes of two runs of pieces are the codes of the first
      followed by the codes of the second. */
  lemma {:induction false} CleanAppend(a: seq<string>, b: seq<string>)
    ensures Clean(a + b) == Clean(a) + Clean(b)
    decreases |a|
  {
    if a != [] {
      assert (a + b)[1..] == a[1..] + b;
      CleanAppend(a[1..], b);
    } else {
      assert a + b == b;
    }
  }

  /** With no blank piece, every comma-separated piece gives one code, its
      stripped text, in the order of the pieces ("7203, 8591" gives "7203"
      then "8591"). */
  lemma {:induction false} TokeniseEveryPiece(pieces: seq<string>)
    requires forall p :: p in pieces ==> ',' !in p && !AllSpace(p)
    ensures var codes := Tokenise(Join(pieces, ','));
      |codes| == |pieces| && forall i :: 0 <= i < |pieces| ==> codes[i] == Strip(pieces[i])
  {
    if pieces == [] {
      TokeniseEmpty([]);
    } else {
      SplitJoin(pieces, ',');
      CleanNonBlank(pieces);
    }
  }

  lemma {:induction false} CleanNonBlank(pieces: seq<string>)
    requires forall p :: p in pieces ==> !AllSpace(p)
    ensures |Clean(pieces)| == |pieces|
    ensures forall i :: 0 <= i < |pieces| ==> Clean(pieces)[i] == Strip(pieces[i])
    decreases |pieces|
  {
    if pieces != [] {
      var rest := pieces[1..];
      CleanNonBlank(rest) by {
        assert forall p :: p in rest ==> p in pieces;
      }
      var head := Strip(pieces[0]);
      assert Clean(pieces) == [head] + Clean(rest) by {
        assert pieces[0] in pieces;
      }
      forall i | 1 <= i < |pieces| ensures Clean(pieces)[i] == Strip(pieces[i]) {
        assert rest[i - 1] == pieces[i];
      }
    }
  }

  /** Codes that are already clean survive a join with commas and a new tokenisation. */
  lemma {:induction false} TokeniseJoin(codes: seq<string>)
    requires forall c :: c in codes ==> c != [] && IsStripped(c) && ',' !in c
    ensures Tokenise(Join(codes, ',')) == codes
  {
    forall c | c in codes ensures !AllSpace(c) && Strip(c) == c {
      StripOfStripped(c);
    }
    TokeniseEveryPiece(codes);
  }

  /** The lookup of one code, given what the request and the parse give for
      each code. */
  function LookupIn(net: string -> Fetch): string -> Option<Record> {
    code => Lookup(code, net(code))
  }

  /** The records kept from looking up `codes` in order. */
  function Collected(codes: seq<string>, lookup: string -> Option<Record>): (results: seq<Record>)
    ensures |results| <= |codes|
  {
    if codes == [] then []
    else Collected(codes[..|codes| - 1], lookup) + Kept(lookup(codes[|codes| - 1]))
  }

  /** What one lookup adds to the results: its record, or nothing. */
  function Kept(data: Option<Record>): seq<Record> {
    match data
    case None => []
    case Some(r) => [r]
  }

  /** Lookups of two runs of codes give the records of the first followed by
      those of the second: results appear in the order of their codes. */
  lemma {:induction false} CollectedAppend(a: seq<string>, b: seq<string>, lookup: string -> Option<Record>)
    ensures Collected(a + b, lookup) == Collected(a, lookup) + Collected(b, lookup)
    decreases |b|
  {
    if b == [] {
      assert a + b == a;
    } else {
      var ab := a + b;
      var b' := b[..|b| - 1];
      assert ab[..|ab| - 1] == a + b';
      assert ab[|ab| - 1] == b[|b| - 1];
      CollectedAppend(a, b', lookup);
      var k := Kept(lookup(b[|b| - 1]));
      assert (Collected(a, lookup) + Collected(b', lookup)) + k
          == Collected(a, lookup) + (Collected(b', lookup) + k);
    }
  }

  /** A record is kept exactly when it is what the lookup of one of the codes gave. */
  lemma {:induction false} CollectedMembers(codes: seq<string>, lookup: string -> Option<Record>, r: Record)
    ensures r in Collected(codes, lookup) <==> exists i :: 0 <= i < |codes| && lookup(codes[i]) == Some(r)
    decreases |codes|
  {
    if codes != [] {
      var n := |codes| - 1;
      var init := codes[..n];
      CollectedMembers(init, lookup, r);
      CollectedStep(codes, n, lookup);
      assert codes[..n + 1] == codes;
      if r in Collected(init, lookup) {
        var i :| 0 <= i < |init| && lookup(init[i]) == Some(r);
        assert codes[i] == init[i];
      } else if r in Kept(lookup(codes[n])) {
        assert lookup(codes[n]) == Some(r);
      }
      if i :| 0 <= i < |codes| && lookup(codes[i]) == Some(r) {
        if i < n {
          assert codes[i] == init[i];
        } else {
          assert r in Kept(lookup(codes[n]));
        }
      }
    }
  }

  /** Every code gives a card exactly when every lookup succeeds. */
  lemma {:induction false} CollectedAll(codes: seq<string>, lookup: string -> Option<Record>)
    ensures |Collected(codes, lookup)| == |codes| <==> forall i :: 0 <= i < |codes| ==> lookup(codes[i]).Some?
    decreases |codes|
  {
    if codes != [] {
      var n := |codes| - 1;
      var init := codes[..n];
      CollectedAll(init, lookup);
      assert forall i :: 0 <= i < n ==> init[i] == codes[i];
    }
  }

  /** Only failed lookups leave nothing to show. */
  lemma {:induction false} CollectedNone(codes: seq<string>, lookup: string -> Option<Record>)
    ensures Collected(codes, lookup) == [] <==> forall i :: 0 <= i < |codes| ==> lookup(codes[i]).None?
    decreases |codes|
  {
    if codes != [] {
      var n := |codes| - 1;
      var init := codes[..n];
      CollectedNone(init, lookup);
      CollectedStep(codes, n, lookup);
      assert codes[..n + 1] == codes;
      if Collected(codes, lookup) == [] {
        forall i | 0 <= i < |codes| ensures lookup(codes[i]).None? {
          if i < n { assert init[i] == codes[i]; }
        }
      } else if lookup(codes[n]).None? {
        var i :| 0 <= i < n && lookup(init[i]).Some?;
        assert init[i] == codes[i];
      }
    }
  }

  /** One more code adds what its lookup gave at the end of the results. */
  lemma {:induction false} CollectedStep(codes: seq<string>, i: nat, lookup: string -> Option<Record>)
    requires i < |codes|
    ensures Collected(codes[..i + 1], lookup) == Collected(codes[..i], lookup) + Kept(lookup(codes[i]))
  {
    assert codes[..i + 1][..i] == codes[..i];
  }

  /** The step of the loop: the next code's page adds its record, if any.
      This is `CollectedStep` for `LookupIn(net)` together with the slice fact
      the loop needs; stating both in one small lemma keeps the proof of
      `Accumulate` cheap. */
  lemma {:induction false} CollectedNext(codes: seq<string>, i: nat, net: string -> Fetch)
    requires i < |codes|
    ensures codes[..i + 1] == codes[..i] + [codes[i]]
    ensures Collected(codes[..i + 1], LookupIn(net))
         == Collected(codes[..i], LookupIn(net)) + Kept(Lookup(codes[i], net(codes[i])))
  {
  }

  /** The records on display carry the codes they were looked up for. */
  lemma {:induction false} CollectedCodes(codes: seq<string>, net: string -> Fetch, r: Record)
    requires r in Collected(codes, LookupIn(net))
    ensures r.code in codes
  {
    CollectedMembers(codes, LookupIn(net), r);
  }

  /** The loop of lines 72-79: each code is looked up once, in order, and a
      record is appended when the lookup gave one. */
  method Accumulate(codes: seq<string>, net: string -> Fetch) returns (results: seq<Record>, fetched: seq<string>)
    ensures results == Collected(codes, LookupIn(net))
    ensures fetched == codes
  {
    results, fetched := [], [];
    for i := 0 to |codes|
      invariant results == Collected(codes[..i], LookupIn(net))
      invariant fetched == codes[..i]
    {
      var code := codes[i];
      CollectedNext(codes, i, net);
      var data := GetStockData(code, net(code));
      fetched := fetched + [code];
      if data.Some? {
        results := results + [data.value];
      }
    }
    assert codes[..|codes|] == codes;
  }

  /** Which branch the handler takes once the search button is pressed. */
  datatype Screen =
    | EnterCodesWarning            // no code was entered
    | NothingFoundError            // no lookup gave a record
    | Cards(records: seq<Record>)  // the `if results:` branch and the records it is given, in order

  /** The button handler: with no codes, only the warning and no lookup at all;
      otherwise every code is looked up and the records, if any, are handed to
      the card branch. */
  method Search(text: string, net: string -> Fetch) returns (screen: Screen, fetched: seq<string>)
    ensures fetched == Tokenise(text)
    ensures screen == EnterCodesWarning <==> Tokenise(text) == []
    ensures screen == NothingFoundError <==> Tokenise(text) != [] && Collected(Tokenise(text), LookupIn(net)) == []
    ensures screen.Cards? ==> screen.records == Collected(Tokenise(text), LookupIn(net)) && screen.records != []
  {
    var codes := Tokenise(text);
    if codes == [] {
      return EnterCodesWarning, [];
    }
    var results;
    results, fetched := Accumulate(codes, net);
    if results != [] {
      screen := Cards(results);
    } else {
      screen := NothingFoundError;
    }
  }
}
