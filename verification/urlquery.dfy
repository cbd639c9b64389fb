/** The URL query parsers: the guarded _url2dict of pathmap/mapycz.py
    (lines 41-64) and the unguarded one shared by pathmap/cykloserver.py
    (lines 43-52) and getmap.py (lines 5-10). A parsed URL is the text before
    the first '?' and a dictionary built from the '&'-separated pieces after it. */
module UrlQuery {
  import opened Outcomes
  import opened Strings

  /** The Python exceptions the parsers can raise. */
  datatype PyError =
    | ValueError  // unpacking a one-element split into two names
    | IndexError  // y[1] on a piece without '='

  /** One dictionary entry. */
  datatype Entry = Entry(key: string, value: string)

  /** The returned dictionary {"url": ..., "atributes": {...}}. Python's
      dictionary order is not modelled. */
  datatype Query = Query(url: string, attributes: map<string, string>)

  /** y = x.split("="); (y[0], y[1]). A piece yields an entry exactly when it
      holds '='; the key is the text before the first '=', the value the text up
      to the second '=' or the end, and anything from a second '=' on is dropped. */
  function EntryOf(piece: string): (r: Result<Entry, PyError>)
    ensures r.Err? <==> '=' !in piece
    ensures r.Err? ==> r.error == IndexError
    ensures r.Ok? ==>
              && '=' !in r.value.key && '=' !in r.value.value
              && (piece == r.value.key + "=" + r.value.value || r.value.key + "=" + r.value.value + "=" <= piece)
  {
    var y := Split(piece, '=');
    SplitMany(piece, '=');
    SplitJoin(piece, '=');
    if |y| < 2 then Err(IndexError)
    else
      assert '=' !in y[0] && '=' !in y[1];
      assert piece == y[0] + "=" + Join(y[1..], '=');
      assert |y| > 2 ==> (y[0] + "=" + y[1] + "=") <= piece by {
        if |y| > 2 {
          assert Join(y[1..], '=') == y[1] + "=" + Join(y[2..], '=');
          assert piece == (y[0] + "=" + y[1] + "=") + Join(y[2..], '=');
        }
      }
      Ok(Entry(y[0], y[1]))
  }

  /** The entries of all pieces, in order; the first piece without '=' raises. */
  function Entries(pieces: seq<string>): Result<seq<Entry>, PyError>
  {
    if |pieces| == 0 then Ok([])
    else
      match EntryOf(pieces[0])
      case Err(e) => Err(e)
      case Ok(first) =>
        match Entries(pieces[1..])
        case Err(e) => Err(e)
        case Ok(rest) => Ok([first] + rest)
  }

  lemma EntriesCons(piece: string, pieces: seq<string>)
    requires EntryOf(piece).Ok? && Entries(pieces).Ok?
    ensures Entries([piece] + pieces) == Ok([EntryOf(piece).value] + Entries(pieces).value)
  {
    assert ([piece] + pieces)[0] == piece;
    assert ([piece] + pieces)[1..] == pieces;
  }

  /** The dictionary comprehension: entries inserted in order, so a later entry
      overwrites an earlier one with the same key. */
  function ToMap(es: seq<Entry>): map<string, string>
  {
    if |es| == 0 then map[]
    else
      var last := es[|es| - 1];
      ToMap(es[..|es| - 1])[last.key := last.value]
  }

  /** The attributes of a query string: IndexError exactly when one of its
      '&'-pieces lacks '=' (AttributesSpec states the dictionary otherwise). */
  function Attributes(query: string): (r: Result<map<string, string>, PyError>)
    ensures r.Err? <==> !AllHaveEq(Split(query, '&'))
    ensures r.Err? ==> r.error == IndexError
  {
    EntriesSpec(Split(query, '&'));
    match Entries(Split(query, '&'))
    case Err(e) => Err(e)
    case Ok(es) => Ok(ToMap(es))
  }

  function WithUrl(url: string, attributes: Result<map<string, string>, PyError>): Result<Query, PyError>
  {
    match attributes
    case Err(e) => Err(e)
    case Ok(m) => Ok(Query(url, m))
  }

  /** mapycz's _url2dict: a URL without '?' or with an empty query has no
      attributes. A parsed URL is a prefix of the input without '?'. */
  function ParseGuarded(url: string): (r: Result<Query, PyError>)
    ensures r.Ok? ==> r.value.url <= url && '?' !in r.value.url
  {
    SplitOnceHalves(url, '?');
    match SplitOnce(url, '?')
    case None => Ok(Query(url, map[]))
    case Some(h) => if |h.after| == 0 then Ok(Query(h.before, map[])) else WithUrl(h.before, Attributes(h.after))
  }

  /** cykloserver's _url2dict and getmap.py's url2dict: it succeeds only on a
      URL with '?', and the parsed URL is the prefix before the first one. */
  function ParseUnguarded(url: string): (r: Result<Query, PyError>)
    ensures r.Ok? ==> '?' in url && r.value.url <= url && '?' !in r.value.url
  {
    SplitOnceHalves(url, '?');
    match SplitOnce(url, '?')
    case None => Err(ValueError)
    case Some(h) => WithUrl(h.before, Attributes(h.after))
  }

  /** Conversely, every key and value without '=' come back from their piece,
      whatever follows a second '='. */
  lemma EntryOfPiece(key: string, value: string, rest: string)
    requires '=' !in key && '=' !in value
    ensures EntryOf(key + "=" + value) == Ok(Entry(key, value))
    ensures EntryOf(key + "=" + value + "=" + rest) == Ok(Entry(key, value))
  {
    SplitFree(value, '=');
    SplitConcat(key, '=', value);
    SplitFree(key, '=');
    SplitConcat(key, '=', value + "=" + rest);
    SplitConcat(value, '=', rest);
    assert key + "=" + value + "=" + rest == key + ['='] + (value + ['='] + rest);
  }

  predicate AllHaveEq(pieces: seq<string>)
  {
    forall i :: 0 <= i < |pieces| ==> '=' in pieces[i]
  }

  /** The entries fail, with IndexError, exactly when some piece lacks '=';
      otherwise there is one entry per piece, in order. */
  lemma {:induction false} EntriesSpec(pieces: seq<string>)
    ensures Entries(pieces).Err? <==> !AllHaveEq(pieces)
    ensures Entries(pieces).Err? ==> Entries(pieces).error == IndexError
    ensures Entries(pieces).Ok? ==>
              && |Entries(pieces).value| == |pieces|
              && forall i :: 0 <= i < |pieces| ==> EntryOf(pieces[i]) == Ok(Entries(pieces).value[i])
  {
    if |pieces| > 0 {
      EntriesSpec(pieces[1..]);
      if AllHaveEq(pieces) {
        assert AllHaveEq(pieces[1..]) by {
          forall i | 0 <= i < |pieces[1..]|
            ensures '=' in pieces[1..][i]
          {
            assert pieces[1..][i] == pieces[i + 1];
          }
        }
        var es := Entries(pieces).value;
        forall i | 0 <= i < |pieces|
          ensures EntryOf(pieces[i]) == Ok(es[i])
        {
          if i > 0 {
            assert pieces[i] == pieces[1..][i - 1];
          }
        }
      } else {
        var i :| 0 <= i < |pieces| && '=' !in pieces[i];
        if i > 0 {
          assert pieces[1..][i - 1] == pieces[i];
        }
      }
    }
  }

  /** Entry i is the last one with its key. */
  predicate LastWithKey(es: seq<Entry>, i: int)
    requires 0 <= i < |es|
  {
    forall j :: i < j < |es| ==> es[j].key != es[i].key
  }

  /** The dictionary's keys are exactly the entries' keys. */
  lemma {:induction false} ToMapKeys(es: seq<Entry>)
    ensures forall k :: k in ToMap(es) <==> exists i :: 0 <= i < |es| && es[i].key == k
  {
    if |es| > 0 {
      var n := |es| - 1;
      var init := es[..n];
      ToMapKeys(init);
      forall k
        ensures k in ToMap(es) <==> exists i :: 0 <= i < |es| && es[i].key == k
      {
        if k in ToMap(init) {
          var i :| 0 <= i < |init| && init[i].key == k;
          assert es[i].key == k;
        }
        if exists i :: 0 <= i < |es| && es[i].key == k {
          var i :| 0 <= i < |es| && es[i].key == k;
          if i < n {
            assert init[i].key == k;
          }
        }
      }
    }
  }

  /** Each key holds the value of the last entry that has it. */
  lemma {:induction false} ToMapLastWins(es: seq<Entry>, i: int)
    requires 0 <= i < |es| && LastWithKey(es, i)
    ensures es[i].key in ToMap(es) && ToMap(es)[es[i].key] == es[i].value
  {
    var n := |es| - 1;
    if i < n {
      var init := es[..n];
      assert es[n].key != es[i].key;
      assert init[i] == es[i];
      assert LastWithKey(init, i) by {
        forall j | i < j < |init|
          ensures init[j].key != init[i].key
        {
          assert init[j] == es[j];
        }
      }
      ToMapLastWins(init, i);
    }
  }

  /** The split happens at the first '?': the URL is the text before it and
      the query everything after it, later '?' included. */
  lemma GuardedQuery(base: string, query: string)
    requires '?' !in base
    ensures ParseGuarded(base + "?" + query)
         == if |query| == 0 then Ok(Query(base, map[])) else WithUrl(base, Attributes(query))
  {
    SplitOnceUnique(base + "?" + query, '?', base, query);
  }

  /** A URL without '?' comes back unchanged with no attributes. */
  lemma GuardedNoQuery(url: string)
    requires '?' !in url
    ensures ParseGuarded(url) == Ok(Query(url, map[]))
  {
    SplitOnceHalves(url, '?');
  }

  lemma UnguardedQuery(base: string, query: string)
    requires '?' !in base
    ensures ParseUnguarded(base + "?" + query) == WithUrl(base, Attributes(query))
  {
    SplitOnceUnique(base + "?" + query, '?', base, query);
  }

  /** Without '?' the two-name unpacking raises ValueError. */
  lemma UnguardedNoQuery(url: string)
    requires '?' !in url
    ensures ParseUnguarded(url) == Err(ValueError)
  {
    SplitOnceHalves(url, '?');
  }

  /** The query fails exactly when one of its '&'-pieces lacks '=', with IndexError;
      otherwise each piece's key maps to the value of its last occurrence and
      there are no other keys. */
  lemma AttributesSpec(query: string)
    ensures Attributes(query).Err? <==> !AllHaveEq(Split(query, '&'))
    ensures Attributes(query).Err? ==> Attributes(query).error == IndexError
    ensures Attributes(query).Ok? ==>
              var pieces := Split(query, '&');
              var es := Entries(pieces).value;
              && Attributes(query).value == ToMap(es)
              && |es| == |pieces|
              && (forall i :: 0 <= i < |pieces| ==> EntryOf(pieces[i]) == Ok(es[i]))
              && (forall k :: k in Attributes(query).value <==> exists i :: 0 <= i < |es| && es[i].key == k)
              && (forall i :: 0 <= i < |es| && LastWithKey(es, i) ==> Attributes(query).value[es[i].key] == es[i].value)
  {
    EntriesSpec(Split(query, '&'));
    if Entries(Split(query, '&')).Ok? {
      var es := Entries(Split(query, '&')).value;
      ToMapKeys(es);
      forall i | 0 <= i < |es| && LastWithKey(es, i)
        ensures ToMap(es)[es[i].key] == es[i].value
      {
        ToMapLastWins(es, i);
      }
    }
  }

  /** A query holding an empty piece raises IndexError. */
  lemma EmptyPieceFails(query: string, i: int)
    requires 0 <= i < |Split(query, '&')| && Split(query, '&')[i] == ""
    ensures Attributes(query) == Err(IndexError)
  {
    AttributesSpec(query);
  }

  /** An empty query, a trailing '&' and a doubled '&' all leave an empty piece. */
  lemma EmptyQueryFails()
    ensures Attributes("") == Err(IndexError)
  {
    EmptyPieceFails("", 0);
  }

  lemma TrailingAmpersandFails(a: string)
    ensures Attributes(a + "&") == Err(IndexError)
  {
    SplitConcat(a, '&', "");
    assert a + "&" == a + ['&'] + "";
    var n := |Split(a, '&')|;
    assert Split(a + "&", '&')[n] == Split("", '&')[0];
    EmptyPieceFails(a + "&", n);
  }

  lemma DoubledAmpersandFails(a: string, b: string)
    ensures Attributes(a + "&&" + b) == Err(IndexError)
  {
    SplitConcat(a, '&', "&" + b);
    SplitConcat("", '&', b);
    assert "&" + b == "" + ['&'] + b;
    assert a + "&&" + b == a + ['&'] + ("&" + b);
    var n := |Split(a, '&')|;
    assert Split("&" + b, '&')[0] == "";
    assert Split(a + "&&" + b, '&')[n] == Split("&" + b, '&')[0];
    EmptyPieceFails(a + "&&" + b, n);
  }

  /** The unguarded parser raises on an empty query, where the guarded one
      returns the prefix and no attributes. */
  lemma EmptyQueryDiffers(base: string)
    requires '?' !in base
    ensures ParseUnguarded(base + "?") == Err(IndexError)
    ensures ParseGuarded(base + "?") == Ok(Query(base, map[]))
  {
    UnguardedQuery(base, "");
    GuardedQuery(base, "");
    EmptyQueryFails();
    assert base + "?" == base + "?" + "";
  }

  /** The two parsers agree exactly on URLs with '?' and a non-empty query; the
      unguarded one succeeds only there. */
  lemma VariantsAgree(url: string)
    ensures ParseGuarded(url) == ParseUnguarded(url)
        <==> '?' in url && |SplitOnce(url, '?').value.after| > 0
    ensures ParseUnguarded(url).Ok? ==> ParseGuarded(url) == ParseUnguarded(url)
  {
    SplitOnceHalves(url, '?');
    if '?' in url {
      var h := SplitOnce(url, '?').value;
      if |h.after| == 0 {
        EmptyQueryFails();
      }
    }
  }

  /** Two entries with distinct keys give a two-key dictionary. */
  lemma TwoEntries(k1: string, v1: string, k2: string, v2: string)
    requires '=' !in k1 && '=' !in v1 && '=' !in k2 && '=' !in v2
    requires '&' !in k1 && '&' !in v1 && '&' !in k2 && '&' !in v2
    ensures Attributes(k1 + "=" + v1 + "&" + k2 + "=" + v2) == Ok(map[k1 := v1, k2 := v2])
  {
    var p1 := k1 + "=" + v1;
    var p2 := k2 + "=" + v2;
    assert '&' !in p1 && '&' !in p2;
    assert k1 + "=" + v1 + "&" + k2 + "=" + v2 == p1 + ['&'] + p2;
    SplitConcat(p1, '&', p2);
    SplitFree(p1, '&');
    SplitFree(p2, '&');
    assert Split(p1 + ['&'] + p2, '&') == [p1, p2];
    EntryOfPiece(k1, v1, "");
    EntryOfPiece(k2, v2, "");
    var es := [Entry(k1, v1), Entry(k2, v2)];
    assert EntryOf(p2) == Ok(Entry(k2, v2));
    var none: seq<string> := [];
    assert Entries(none) == Ok([]);
    EntriesCons(p2, none);
    assert [Entry(k2, v2)] + [] == [Entry(k2, v2)];
    assert [p2] + none == [p2];
    assert Entries([p2]) == Ok([Entry(k2, v2)]);
    EntriesCons(p1, [p2]);
    assert [p1] + [p2] == [p1, p2];
    assert [Entry(k1, v1)] + [Entry(k2, v2)] == es;
    assert Entries([p1, p2]) == Ok(es);
    assert es[..1] == [Entry(k1, v1)] && [Entry(k1, v1)][..0] == [];
    assert ToMap([Entry(k1, v1)]) == map[k1 := v1];
    assert ToMap(es) == map[k1 := v1][k2 := v2];
  }

  /** A URL whose query holds two entries with distinct '='- and '&'-free
      keys and values parses, with both parsers, to those two attributes. */
  lemma TwoEntryUrl(base: string, k1: string, v1: string, k2: string, v2: string)
    requires '?' !in base
    requires '=' !in k1 && '=' !in v1 && '=' !in k2 && '=' !in v2
    requires '&' !in k1 && '&' !in v1 && '&' !in k2 && '&' !in v2
    ensures ParseGuarded(base + "?" + (k1 + "=" + v1 + "&" + k2 + "=" + v2)) == Ok(Query(base, map[k1 := v1, k2 := v2]))
    ensures ParseUnguarded(base + "?" + (k1 + "=" + v1 + "&" + k2 + "=" + v2)) == Ok(Query(base, map[k1 := v1, k2 := v2]))
  {
    var query := k1 + "=" + v1 + "&" + k2 + "=" + v2;
    GuardedQuery(base, query);
    UnguardedQuery(base, query);
    TwoEntries(k1, v1, k2, v2);
  }

  /** The documented example: par1=23&par2=45 gives {par1: 23, par2: 45}. */
  lemma KnownExample()
    ensures var url := "http://server.com/index.php" + "?" + ("par1" + "=" + "23" + "&" + "par2" + "=" + "45");
            && ParseGuarded(url) == Ok(Query("http://server.com/index.php", map["par1" := "23", "par2" := "45"]))
            && ParseUnguarded(url) == Ok(Query("http://server.com/index.php", map["par1" := "23", "par2" := "45"]))
  {
    TwoEntryUrl("http://server.com/index.php", "par1", "23", "par2", "45");
  }
}
