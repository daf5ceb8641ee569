/**
 * `find_coords` and `extract_lease_area_outlines`: lease-area outlines read
 * from the `coordinates` texts of already-parsed KML 2.2 placemarks.
 */
module LeaseAreas {
  import opened Wrappers

  /** One `[lon, lat]` pair; the two fields are kept as the text that `np.float` would convert. */
  datatype Coord = Coord(lon: string, lat: string)

  /** The `{outer, inner}` record stored under each lease-area name. */
  datatype Outline = Outline(outer: seq<Coord>, inner: seq<Coord>)

  /**
   * A `Placemark` element as the element-path queries see it: the texts of its
   * `name` children, and the texts of its outer-boundary and inner-boundary
   * `coordinates` elements, each in document order.
   */
  datatype Placemark = Placemark(names: seq<string>, outerTexts: seq<string>, innerTexts: seq<string>)

  /**
   * A token without a comma cannot yield a pair: `np.float(splitter[0])` raises
   * a ValueError when its only field is not a number (the empty token
   * included), and `splitter[1]` raises an IndexError otherwise.
   */
  datatype CoordError = MissingLatitude(token: string)

  /** Python's `s.split(sep)` for a one-character separator: every occurrence splits, empty pieces included. */
  function Split(s: string, sep: char): (r: seq<string>)
    ensures |r| >= 1
    ensures forall i :: 0 <= i < |r| ==> sep !in r[i]
  {
    if s == [] then [""]
    else
      var rest := Split(s[1..], sep);
      if s[0] == sep then [""] + rest else [[s[0]] + rest[0]] + rest[1..]
  }

  /** `sep.join(parts)`. */
  function Join(parts: seq<string>, sep: char): string
    requires |parts| >= 1
  {
    if |parts| == 1 then parts[0] else parts[0] + [sep] + Join(parts[1..], sep)
  }

  /** Splitting loses nothing: joining the pieces gives the text back. */
  lemma {:induction false} JoinSplit(s: string, sep: char)
    ensures Join(Split(s, sep), sep) == s
  {
    if s != [] {
      var rest := Split(s[1..], sep);
      JoinSplit(s[1..], sep);
      if s[0] != sep {
        if |rest| == 1 {
          assert Split(s, sep) == [[s[0]] + rest[0]];
        } else {
          assert Split(s, sep)[1..] == rest[1..];
        }
      }
    }
  }

  /** Pieces without the separator are recovered by splitting their join. */
  lemma {:induction false} SplitJoin(parts: seq<string>, sep: char)
    requires |parts| >= 1 && forall i :: 0 <= i < |parts| ==> sep !in parts[i]
    ensures Split(Join(parts, sep), sep) == parts
  {
    if |parts| == 1 {
      SplitPiece(parts[0], sep, []);
      assert parts[0] + [] == parts[0] + "" == parts[0];
    } else {
      var rest := Join(parts[1..], sep);
      SplitJoin(parts[1..], sep);
      SplitPiece(parts[0], sep, [sep] + rest);
      assert Join(parts, sep) == parts[0] + ([sep] + rest);
      assert ([sep] + rest)[1..] == rest;
      assert Split([sep] + rest, sep) == [""] + parts[1..];
      assert parts[0] + "" == parts[0];
      assert parts == [parts[0]] + parts[1..];
    }
  }

  /** A separator-free prefix becomes the head of the first piece. */
  lemma {:induction false} SplitPiece(piece: string, sep: char, tail: string)
    requires sep !in piece
    ensures Split(piece + tail, sep)
         == [piece + Split(tail, sep)[0]] + Split(tail, sep)[1..]
  {
    if piece != [] {
      assert (piece + tail)[1..] == piece[1..] + tail;
      SplitPiece(piece[1..], sep, tail);
      assert [piece[0]] + (piece[1..] + Split(tail, sep)[0]) == piece + Split(tail, sep)[0];
    } else {
      var r := Split(tail, sep);
      assert piece + tail == tail;
      assert piece + r[0] == r[0];
      assert [r[0]] + r[1..] == r;
    }
  }

  /** Every space-separated token of the given texts, in document order. */
  function Tokens(texts: seq<string>): (r: seq<string>)
  {
    if texts == [] then [] else Tokens(texts[..|texts| - 1]) + Split(texts[|texts| - 1], ' ')
  }

  lemma {:induction false} TokensAppend(a: seq<string>, b: seq<string>)
    ensures Tokens(a + b) == Tokens(a) + Tokens(b)
    decreases |b|
  {
    if b == [] {
      assert a + b == a;
    } else {
      var b' := b[..|b| - 1];
      var last := Split(b[|b| - 1], ' ');
      assert (a + b)[..|a + b| - 1] == a + b';
      assert (a + b)[|a + b| - 1] == b[|b| - 1];
      assert Tokens(a + b) == Tokens(a + b') + last;
      TokensAppend(a, b');
      assert Tokens(b) == Tokens(b') + last;
    }
  }

  /** One token `lon,lat[,alt]`: its first two comma fields, or the error when it has no comma. */
  function ParseCoord(token: string): (r: Result<Coord, CoordError>)
    ensures r.Failure? <==> ',' !in token
    ensures r.Failure? ==> r.error == MissingLatitude(token)
  {
    var fields := Split(token, ',');
    if |fields| < 2 then
      NoCommaOnePiece(token);
      Failure(MissingLatitude(token))
    else
      CommaTwoPieces(token);
      Success(Coord(fields[0], fields[1]))
  }

  lemma {:induction false} NoCommaOnePiece(token: string)
    ensures |Split(token, ',')| < 2 ==> ',' !in token
  {
    if token != [] {
      NoCommaOnePiece(token[1..]);
    }
  }

  lemma {:induction false} CommaTwoPieces(token: string)
    ensures |Split(token, ',')| >= 2 ==> ',' in token
  {
    if token != [] && token[0] != ',' {
      CommaTwoPieces(token[1..]);
    }
  }

  /** The coordinate pairs of a token list: the first token without a comma is the error. */
  function CoordsOf(tokens: seq<string>): (r: Result<seq<Coord>, CoordError>)
  {
    if tokens == [] then Success([])
    else
      match CoordsOf(tokens[..|tokens| - 1])
      case Failure(e) => Failure(e)
      case Success(cs) =>
        match ParseCoord(tokens[|tokens| - 1])
        case Failure(e) => Failure(e)
        case Success(c) => Success(cs + [c])
  }

  /** Once a prefix of the tokens fails, the whole list fails with the same error. */
  lemma {:induction false} CoordsOfFailurePersists(a: seq<string>, b: seq<string>)
    requires CoordsOf(a).Failure?
    ensures CoordsOf(a + b) == CoordsOf(a)
    decreases |b|
  {
    if b == [] {
      assert a + b == a;
    } else {
      var b' := b[..|b| - 1];
      assert (a + b)[..|a + b| - 1] == a + b';
      CoordsOfFailurePersists(a, b');
    }
  }

  /** Extending a list of tokens by one well-formed token extends its pairs by that token's pair. */
  lemma {:induction false} CoordsOfStep(done: seq<string>, pieces: seq<string>, j: int, coords: seq<Coord>)
    requires 0 <= j < |pieces| && CoordsOf(done + pieces[..j]) == Success(coords)
    ensures CoordsOf(done + pieces[..j + 1])
         == if ',' in pieces[j] then Success(coords + [ParseCoord(pieces[j]).value])
            else Failure(MissingLatitude(pieces[j]))
  {
    assert (done + pieces[..j + 1])[..|done| + j] == done + pieces[..j];
  }

  /** A token without a comma fails the whole text list, when every token before it is well formed. */
  lemma {:induction false} FirstBadToken(texts: seq<string>, i: int, j: int)
    requires 0 <= i < |texts| && 0 <= j < |Split(texts[i], ' ')|
    requires CoordsOf(Tokens(texts[..i]) + Split(texts[i], ' ')[..j + 1]).Failure?
    ensures CoordsOf(Tokens(texts)) == CoordsOf(Tokens(texts[..i]) + Split(texts[i], ' ')[..j + 1])
  {
    var pieces := Split(texts[i], ' ');
    var done := Tokens(texts[..i]);
    var later := Tokens(texts[i + 1..]);
    var failed := done + pieces[..j + 1];
    TokensAt(texts, i);
    CoordsOfFailurePersists(failed, pieces[j + 1..]);
    assert failed + pieces[j + 1..] == done + pieces by {
      assert pieces[..j + 1] + pieces[j + 1..] == pieces;
    }
    CoordsOfFailurePersists(done + pieces, later);
  }

  lemma {:induction false} TokensAt(texts: seq<string>, i: int)
    requires 0 <= i < |texts|
    ensures Tokens(texts) == Tokens(texts[..i]) + Split(texts[i], ' ') + Tokens(texts[i + 1..])
  {
    var head := texts[..i + 1];
    var tail := texts[i + 1..];
    assert texts == head + tail;
    TokensAppend(head, tail);
    assert head[..|head| - 1] == texts[..i];
  }

  /** `find_coords(elem, findstr)` over the texts of the `coordinates` elements it finds. */
  method FindCoords(texts: seq<string>) returns (r: Result<seq<Coord>, CoordError>)
    ensures r == CoordsOf(Tokens(texts))
  {
    var coordlist: seq<Coord> := [];
    for i := 0 to |texts|
      invariant CoordsOf(Tokens(texts[..i])) == Success(coordlist)
    {
      var coordStrlst := Split(texts[i], ' ');
      ghost var done := Tokens(texts[..i]);
      assert done + coordStrlst[..0] == done;
      for j := 0 to |coordStrlst|
        invariant CoordsOf(done + coordStrlst[..j]) == Success(coordlist)
      {
        var coords := coordStrlst[j];
        var splitter := Split(coords, ',');
        CoordsOfStep(done, coordStrlst, j, coordlist);
        if |splitter| < 2 {
          FirstBadToken(texts, i, j);
          return Failure(MissingLatitude(coords));
        }
        assert ParseCoord(coords) == Success(Coord(splitter[0], splitter[1]));
        coordlist := coordlist + [Coord(splitter[0], splitter[1])];
      }
      assert coordStrlst[..|coordStrlst|] == coordStrlst;
      assert texts[..i + 1][..i] == texts[..i];
    }
    assert texts[..|texts|] == texts;
    return Success(coordlist);
  }

  /** The pairs succeed exactly when every token has a comma, and then there is one pair per token, in order. */
  lemma {:induction false} CoordsOfSucceeds(tokens: seq<string>)
    ensures CoordsOf(tokens).Success? <==> forall i :: 0 <= i < |tokens| ==> ',' in tokens[i]
    ensures CoordsOf(tokens).Success? ==>
              |CoordsOf(tokens).value| == |tokens|
              && forall i :: 0 <= i < |tokens| ==> CoordsOf(tokens).value[i] == ParseCoord(tokens[i]).value
  {
    if tokens != [] {
      var front := tokens[..|tokens| - 1];
      CoordsOfSucceeds(front);
      assert forall i :: 0 <= i < |front| ==> front[i] == tokens[i];
    }
  }

  /** A failure names the first token without a comma. */
  lemma {:induction false} CoordsOfFirstError(tokens: seq<string>)
    requires CoordsOf(tokens).Failure?
    ensures exists k :: 0 <= k < |tokens| && ',' !in tokens[k]
              && (forall i :: 0 <= i < k ==> ',' in tokens[i])
              && CoordsOf(tokens).error == MissingLatitude(tokens[k])
  {
    var front := tokens[..|tokens| - 1];
    assert forall i :: 0 <= i < |front| ==> front[i] == tokens[i];
    if CoordsOf(front).Failure? {
      CoordsOfFirstError(front);
    } else {
      CoordsOfSucceeds(front);
      assert ',' !in tokens[|tokens| - 1];
    }
  }

  /**
   * A pair holds the text before the first comma and the text between the
   * first and the second comma; whatever follows (an altitude) is dropped.
   */
  lemma ParseCoordFields(token: string)
    requires ParseCoord(token).Success?
    ensures var c := ParseCoord(token).value;
      ',' !in c.lon && ',' !in c.lat
      && exists rest :: token == c.lon + [','] + c.lat + rest && (rest == [] || rest[0] == ',')
  {
    var fields := Split(token, ',');
    JoinSplit(token, ',');
    if |fields| == 2 {
      assert Join(fields[1..], ',') == fields[1];
      assert token == fields[0] + [','] + fields[1] + [];
    } else {
      var tail := Join(fields[2..], ',');
      assert Join(fields[1..], ',') == fields[1] + [','] + tail by {
        assert fields[1..][1..] == fields[2..];
      }
      assert token == fields[0] + [','] + fields[1] + ([','] + tail);
    }
  }

  lemma {:induction false} SplitTrailingSep(s: string, sep: char)
    requires |s| > 0 && s[|s| - 1] == sep
    ensures |Split(s, sep)| >= 2 && Split(s, sep)[|Split(s, sep)| - 1] == ""
  {
    if |s| > 1 {
      SplitTrailingSep(s[1..], sep);
    }
  }

  lemma {:induction false} SplitDoubledSep(s: string, sep: char, k: int)
    requires 0 <= k < |s| - 1 && s[k] == sep && s[k + 1] == sep
    ensures exists n :: 1 <= n < |Split(s, sep)| && Split(s, sep)[n] == ""
  {
    var rest := Split(s[1..], sep);
    if k == 0 {
      assert Split(s, sep)[1] == rest[0] == "";
    } else {
      SplitDoubledSep(s[1..], sep, k - 1);
      var n :| 1 <= n < |rest| && rest[n] == "";
      if s[0] == sep {
        assert Split(s, sep)[n + 1] == "";
      } else {
        assert Split(s, sep)[n] == "";
      }
    }
  }

  /** A separator at either end, or two in a row, yields an empty piece. */
  lemma SplitEmptyPiece(s: string, sep: char, k: int)
    requires 0 <= k < |s| && s[k] == sep && (k == 0 || k == |s| - 1 || s[k + 1] == sep)
    ensures "" in Split(s, sep)
  {
    if k == 0 {
      assert Split(s, sep)[0] == "";
    } else if k == |s| - 1 {
      SplitTrailingSep(s, sep);
    } else {
      SplitDoubledSep(s, sep, k);
    }
  }

  /**
   * The texts are split on single spaces, so a leading, trailing or doubled
   * space leaves an empty token, which has no comma and fails the parse.
   */
  lemma StraySpaceFails(texts: seq<string>, i: int, k: int)
    requires 0 <= i < |texts| && 0 <= k < |texts[i]| && texts[i][k] == ' '
    requires k == 0 || k == |texts[i]| - 1 || texts[i][k + 1] == ' '
    ensures CoordsOf(Tokens(texts)).Failure?
  {
    SplitEmptyPiece(texts[i], ' ', k);
    TokensAt(texts, i);
    var n :| 0 <= n < |Split(texts[i], ' ')| && Split(texts[i], ' ')[n] == "";
    assert Tokens(texts)[|Tokens(texts[..i])| + n] == "";
    CoordsOfSucceeds(Tokens(texts));
  }

  /** The `{outer, inner}` record of one placemark: each list from its own boundary texts. */
  function OutlineOf(p: Placemark): Result<Outline, CoordError>
  {
    match CoordsOf(Tokens(p.outerTexts))
    case Failure(e) => Failure(e)
    case Success(outer) =>
      match CoordsOf(Tokens(p.innerTexts))
      case Failure(e) => Failure(e)
      case Success(inner) => Success(Outline(outer, inner))
  }

  /** Every name of `names` mapped to the same outline. */
  function Entries(names: seq<string>, o: Outline): (m: map<string, Outline>)
  {
    map n | n in names :: o
  }

  /**
   * The name-to-outline map of a sequence of placemarks: each later placemark
   * enters all its names with its own outline, replacing earlier entries. A
   * placemark without a name is never parsed.
   */
  function Outlines(pms: seq<Placemark>): Result<map<string, Outline>, CoordError>
  {
    if pms == [] then Success(map[])
    else
      var p := pms[|pms| - 1];
      match Outlines(pms[..|pms| - 1])
      case Failure(e) => Failure(e)
      case Success(d) =>
        if p.names == [] then Success(d)
        else
          match OutlineOf(p)
          case Failure(e) => Failure(e)
          case Success(o) => Success(d + Entries(p.names, o))
  }

  lemma {:induction false} OutlinesFailurePersists(pms: seq<Placemark>, i: int)
    requires 0 <= i <= |pms| && Outlines(pms[..i]).Failure?
    ensures Outlines(pms) == Outlines(pms[..i])
    decreases |pms| - i
  {
    if i < |pms| {
      assert pms[..i + 1][..i] == pms[..i];
      OutlinesFailurePersists(pms, i + 1);
    } else {
      assert pms[..i] == pms;
    }
  }

  lemma {:induction false} OutlinesStep(pms: seq<Placemark>, i: int, d: map<string, Outline>)
    requires 0 <= i < |pms| && Outlines(pms[..i]) == Success(d)
    ensures Outlines(pms[..i + 1])
         == if pms[i].names == [] then Success(d)
            else match OutlineOf(pms[i])
                 case Failure(e) => Failure(e)
                 case Success(o) => Success(d + Entries(pms[i].names, o))
  {
    assert pms[..i + 1][..i] == pms[..i];
  }

  lemma {:induction false} AddName(before: map<string, Outline>, names: seq<string>, j: int, o: Outline)
    requires 0 <= j < |names|
    ensures before + Entries(names[..j + 1], o)
         == (before + Entries(names[..j], o))[names[j] := o]
  {
    assert names[..j + 1] == names[..j] + [names[j]];
  }

  lemma NoEntries(before: map<string, Outline>, names: seq<string>, o: Outline)
    ensures before + Entries(names[..0], o) == before
  {
    assert Entries(names[..0], o) == map[];
  }

  /** `extract_lease_area_outlines()` over the placemarks of the already-parsed document. */
  method ExtractLeaseAreaOutlines(placemarks: seq<Placemark>) returns (r: Result<map<string, Outline>, CoordError>)
    ensures r == Outlines(placemarks)
  {
    var polygonDict: map<string, Outline> := map[];
    for i := 0 to |placemarks|
      invariant Outlines(placemarks[..i]) == Success(polygonDict)
    {
      var pm := placemarks[i];
      ghost var before := polygonDict;
      ghost var o := if OutlineOf(pm).Success? then OutlineOf(pm).value else Outline([], []);
      OutlinesStep(placemarks, i, before);
      NoEntries(before, pm.names, o);
      for j := 0 to |pm.names|
        invariant j > 0 ==> OutlineOf(pm) == Success(o)
        invariant polygonDict == before + Entries(pm.names[..j], o)
      {
        var outer := FindCoords(pm.outerTexts);
        if outer.Failure? {
          OutlinesFailurePersists(placemarks, i + 1);
          return Failure(outer.error);
        }
        var inner := FindCoords(pm.innerTexts);
        if inner.Failure? {
          OutlinesFailurePersists(placemarks, i + 1);
          return Failure(inner.error);
        }
        assert OutlineOf(pm) == Success(Outline(outer.value, inner.value));
        AddName(before, pm.names, j, o);
        polygonDict := polygonDict[pm.names[j] := Outline(outer.value, inner.value)];
      }
      assert pm.names[..|pm.names|] == pm.names;
    }
    assert placemarks[..|placemarks|] == placemarks;
    return Success(polygonDict);
  }

  /** The extraction fails exactly when some named placemark has a malformed outer or inner coordinate token. */
  lemma {:induction false} OutlinesFailure(pms: seq<Placemark>)
    ensures Outlines(pms).Failure?
        <==> exists i :: 0 <= i < |pms| && pms[i].names != [] && OutlineOf(pms[i]).Failure?
  {
    if pms != [] {
      var front := pms[..|pms| - 1];
      OutlinesFailure(front);
      OutlinesLastFailure(pms);
      assert forall i :: 0 <= i < |front| ==> front[i] == pms[i];
    }
  }

  lemma OutlinesLastFailure(pms: seq<Placemark>)
    requires pms != []
    ensures Outlines(pms).Failure?
        <==> Outlines(pms[..|pms| - 1]).Failure?
             || (pms[|pms| - 1].names != [] && OutlineOf(pms[|pms| - 1]).Failure?)
  {
  }

  /** The keys are exactly the names of all placemarks. */
  lemma {:induction false} OutlinesKeys(pms: seq<Placemark>, k: string)
    requires Outlines(pms).Success?
    ensures k in Outlines(pms).value <==> exists i :: 0 <= i < |pms| && k in pms[i].names
  {
    if pms != [] {
      var front := pms[..|pms| - 1];
      OutlinesKeys(front, k);
      assert forall i :: 0 <= i < |front| ==> front[i] == pms[i];
    }
  }

  /**
   * A name maps to the outline of the last placemark that carries it: the
   * outer list holds all its outer rings' pairs, and the inner list is empty
   * when it has no inner boundary.
   */
  lemma {:induction false} OutlinesLatestWins(pms: seq<Placemark>, i: int, k: string)
    requires Outlines(pms).Success? && 0 <= i < |pms| && k in pms[i].names
    requires forall j :: i < j < |pms| ==> k !in pms[j].names
    ensures OutlineOf(pms[i]).Success? && k in Outlines(pms).value
    ensures Outlines(pms).value[k] == OutlineOf(pms[i]).value
    ensures Outlines(pms).value[k].outer == CoordsOf(Tokens(pms[i].outerTexts)).value
    ensures pms[i].innerTexts == [] ==> Outlines(pms).value[k].inner == []
  {
    var front := pms[..|pms| - 1];
    assert forall j :: 0 <= j < |front| ==> front[j] == pms[j];
    if i < |pms| - 1 {
      OutlinesLatestWins(front, i, k);
    }
  }

  lemma {:induction false} CoordsOfAppend(a: seq<string>, b: seq<string>)
    ensures CoordsOf(a + b).Success? <==> CoordsOf(a).Success? && CoordsOf(b).Success?
    ensures CoordsOf(a + b).Success? ==> CoordsOf(a + b).value == CoordsOf(a).value + CoordsOf(b).value
    decreases |b|
  {
    if b == [] {
      assert a + b == a;
    } else {
      var b' := b[..|b| - 1];
      assert (a + b)[..|a + b| - 1] == a + b';
      CoordsOfAppend(a, b');
    }
  }

  /** Several outer rings of one placemark are concatenated, in document order, into one list. */
  lemma RingsConcatenate(rings: seq<string>, more: seq<string>)
    requires CoordsOf(Tokens(rings + more)).Success?
    ensures CoordsOf(Tokens(rings)).Success? && CoordsOf(Tokens(more)).Success?
    ensures CoordsOf(Tokens(rings + more)).value
         == CoordsOf(Tokens(rings)).value + CoordsOf(Tokens(more)).value
  {
    TokensAppend(rings, more);
    CoordsOfAppend(Tokens(rings), Tokens(more));
  }
}
