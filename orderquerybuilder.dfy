/**
 * `OrderQueryBuilder.CreateOrderQuery<T>`: turns a comma-separated sort
 * string such as `"name desc,id"` into the dynamic-LINQ ordering clause
 * `"Name descending, Id ascending"`, using the public property names of
 * `T` in declaration order (given here as `properties`).
 */
module OrderQueryBuilder {
  import opened Wrappers
  import opened DotNet

  /** The characters of `TrimEnd(',', ' ')`. */
  predicate IsCommaOrSpace(c: char) {
    c == ',' || c == ' '
  }

  /**
   * `FirstOrDefault` over the properties with a case-insensitive name
   * comparison: the index of the first property called `name`, if any.
   */
  function FindProperty(properties: seq<string>, name: string): (r: Option<nat>)
    ensures r.Some? ==> r.value < |properties| && EqualsIgnoreCase(properties[r.value], name)
    ensures r.Some? ==> forall j :: 0 <= j < r.value ==> !EqualsIgnoreCase(properties[j], name)
    ensures r.None? ==> forall j :: 0 <= j < |properties| ==> !EqualsIgnoreCase(properties[j], name)
  {
    if properties == [] then None
    else if EqualsIgnoreCase(properties[0], name) then Some(0)
    else
      var rest := FindProperty(properties[1..], name);
      assert forall j :: 1 <= j < |properties| ==> properties[j] == properties[1..][j - 1];
      match rest
      case None => None
      case Some(k) => Some(k + 1)
  }

  /**
   * A field name that differs from some property's name only in the case of
   * its ASCII letters finds a property, that one or an earlier one.
   */
  lemma FindPropertyIgnoresCase(properties: seq<string>, name: string, k: nat)
    requires k < |properties| && |properties[k]| == |name|
    requires forall i :: 0 <= i < |name| ==> SameLetterIgnoringCase(properties[k][i], name[i])
    ensures FindProperty(properties, name).Some? && FindProperty(properties, name).value <= k
  {
    EqualsIgnoreCaseIffCaseVariants(properties[k], name);
  }

  /** The property a piece asks for: its text up to the first space. */
  function FieldName(piece: string): (r: string)
    ensures |r| <= |piece| && r == piece[..|r|]
    ensures ' ' !in r
    ensures |r| == |piece| || piece[|r|] == ' '
  {
    SplitFirstPiece(piece, ' ');
    Split(piece, ' ')[0]
  }

  /** A piece asks for descending order when it ends in " desc", " descending" or " d". */
  predicate AsksDescending(piece: string) {
    EndsWith(piece, " desc") || EndsWith(piece, " descending") || EndsWith(piece, " d")
  }

  /**
   * The direction word of a piece; a descending piece always ends in a
   * space-prefixed suffix, so its field name falls short of the whole piece.
   */
  function Direction(piece: string): (r: string)
    ensures r == "ascending" || r == "descending"
    ensures r == "descending" <==> AsksDescending(piece)
    ensures r == "descending" ==> |FieldName(piece)| < |piece|
  {
    if AsksDescending(piece) then
      assert ' ' in piece by {
        if EndsWith(piece, " desc") {
          assert piece[|piece| - 5] == ' ';
        } else if EndsWith(piece, " descending") {
          assert piece[|piece| - 11] == ' ';
        } else {
          assert piece[|piece| - 2] == ' ';
        }
      }
      "descending"
    else "ascending"
  }

  /** The clause one comma-separated piece contributes, or None when it is skipped. */
  function Clause(piece: string, properties: seq<string>): (r: Option<string>)
    ensures r.Some? ==> !IsBlank(piece) && IsClauseOf(r.value, properties)
  {
    if IsBlank(piece) then None
    else match FindProperty(properties, FieldName(piece))
      case None => None
      case Some(k) =>
        var p := properties[k];
        assert p + " " + "descending" == p + " descending";
        assert p + " " + "ascending" == p + " ascending";
        Some(p + " " + Direction(piece))
  }

  /** `c` orders by one of the properties, in one of the two directions. */
  predicate IsClauseOf(c: string, properties: seq<string>) {
    exists k :: 0 <= k < |properties| && (c == properties[k] + " ascending" || c == properties[k] + " descending")
  }

  /** The clauses of the pieces, in order; skipped pieces contribute nothing. */
  function Clauses(pieces: seq<string>, properties: seq<string>): (r: seq<string>)
    ensures |r| <= |pieces|
    ensures forall i :: 0 <= i < |r| ==> IsClauseOf(r[i], properties)
    ensures properties == [] ==> r == []
  {
    if pieces == [] then []
    else
      var init := Clauses(pieces[..|pieces| - 1], properties);
      var last := Clause(pieces[|pieces| - 1], properties);
      if last.Some? then init + [last.value] else init
  }

  /** A recognised piece yields a clause naming one of the properties. */
  lemma ClauseIsClauseOf(piece: string, properties: seq<string>)
    ensures Clause(piece, properties).Some? ==> IsClauseOf(Clause(piece, properties).value, properties)
  {
  }

  /** The clauses requested by a sort string: split the trimmed string at commas. */
  function RequestedClauses(orderByQueryString: string, properties: seq<string>): (r: seq<string>)
    ensures |r| <= |Split(Trim(orderByQueryString), ',')|
    ensures forall i :: 0 <= i < |r| ==> IsClauseOf(r[i], properties)
    ensures properties == [] ==> r == []
  {
    Clauses(Split(Trim(orderByQueryString), ','), properties)
  }

  /**
   * What `CreateOrderQuery` returns: the requested clauses joined by ", ",
   * or, when none was recognised, ascending order on the first property
   * (None, that is null, when there are no properties).
   */
  function OrderQuery(orderByQueryString: string, properties: seq<string>): (r: Option<string>)
    ensures r.None? <==> properties == []
    ensures r.Some? && RequestedClauses(orderByQueryString, properties) != [] ==>
      var first := RequestedClauses(orderByQueryString, properties)[0];
      |first| <= |r.value| && r.value[..|first|] == first
  {
    var clauses := RequestedClauses(orderByQueryString, properties);
    if clauses != [] then Some(Join(clauses, ", "))
    else if properties == [] then None
    else Some(properties[0] + " ascending")
  }

  /** The clauses making up a non-null `OrderQuery` result. */
  function ResultClauses(orderByQueryString: string, properties: seq<string>): seq<string>
    requires properties != []
  {
    var clauses := RequestedClauses(orderByQueryString, properties);
    if clauses != [] then clauses else [properties[0] + " ascending"]
  }

  /** The contents of the string builder after appending "clause, " for each clause. */
  function Terminated(clauses: seq<string>): string {
    if clauses == [] then ""
    else Terminated(clauses[..|clauses| - 1]) + clauses[|clauses| - 1] + ", "
  }

  /**
   * The builder loop of `CreateOrderQuery`: one "<Property> <direction>, "
   * per recognised piece, then `TrimEnd(',', ' ')`, then the fallback.
   */
  method CreateOrderQuery(orderByQueryString: string, properties: seq<string>) returns (orderQuery: Option<string>)
    ensures orderQuery == OrderQuery(orderByQueryString, properties)
  {
    var orderParams := Split(Trim(orderByQueryString), ',');
    var builder := "";
    var i := 0;
    while i < |orderParams|
      invariant 0 <= i <= |orderParams|
      invariant builder == Terminated(Clauses(orderParams[..i], properties))
    {
      var param := orderParams[i];
      ClausesSnoc(orderParams, i, properties);
      i := i + 1;
      if IsNullOrWhiteSpace(Some(param)) {
        continue;
      }
      var propertyFromQueryName := Split(param, ' ')[0];
      var objectProperty := FindProperty(properties, propertyFromQueryName);
      if objectProperty.None? {
        continue;
      }
      var direction := if EndsWith(param, " desc") || EndsWith(param, " descending") || EndsWith(param, " d")
        then "descending" else "ascending";
      var clause := properties[objectProperty.value] + " " + direction;
      assert Clause(param, properties) == Some(clause);
      builder := builder + clause + ", ";
    }
    assert orderParams[..i] == orderParams;
    var query := TrimEnd(builder, IsCommaOrSpace);
    TrimmedBuilder(orderByQueryString, properties);
    if IsNullOrWhiteSpace(Some(query)) {
      orderQuery := if |properties| == 0 then None else Some(properties[0] + " ascending");
    } else {
      orderQuery := Some(query);
    }
  }

  /** One loop step: the clauses of the first i + 1 pieces extend those of the first i. */
  lemma ClausesSnoc(pieces: seq<string>, i: nat, properties: seq<string>)
    requires i < |pieces|
    ensures var done := Clauses(pieces[..i], properties);
      var c := Clause(pieces[i], properties);
      Terminated(Clauses(pieces[..i + 1], properties)) ==
        if c.Some? then Terminated(done) + c.value + ", " else Terminated(done)
  {
    assert pieces[..i + 1][..i] == pieces[..i];
    var done := Clauses(pieces[..i], properties);
    var c := Clause(pieces[i], properties);
    if c.Some? {
      assert (done + [c.value])[..|done|] == done;
    }
  }

  /** After the loop: the trimmed builder is blank exactly when no clause was produced, and is their join otherwise. */
  lemma TrimmedBuilder(orderByQueryString: string, properties: seq<string>)
    ensures var clauses := RequestedClauses(orderByQueryString, properties);
      var query := TrimEnd(Terminated(clauses), IsCommaOrSpace);
      (IsBlank(query) <==> clauses == []) && (clauses != [] ==> query == Join(clauses, ", "))
  {
    var clauses := RequestedClauses(orderByQueryString, properties);
    if clauses != [] {
      TrimClauses(clauses, properties);
    }
  }

  /** Every clause ends in 'g', the last letter of "ascending" and "descending". */
  lemma ClauseEndsInG(c: string, properties: seq<string>)
    requires IsClauseOf(c, properties)
    ensures |c| > 0 && c[|c| - 1] == 'g'
  {
  }

  /** The last character of a join of clauses is the 'g' of the last clause. */
  lemma {:induction false} JoinOfClausesEndsInG(clauses: seq<string>, properties: seq<string>)
    requires clauses != []
    requires forall i :: 0 <= i < |clauses| ==> IsClauseOf(clauses[i], properties)
    ensures var j := Join(clauses, ", "); |j| > 0 && j[|j| - 1] == 'g'
  {
    var last := clauses[|clauses| - 1];
    ClauseEndsInG(last, properties);
    if |clauses| > 1 {
      var init := clauses[..|clauses| - 1];
      assert init + [last] == clauses;
      JoinSnoc(init, last, ", ");
    }
  }

  /** The builder holds the joined clauses plus one trailing ", ", which `TrimEnd` removes. */
  lemma {:induction false} TrimClauses(clauses: seq<string>, properties: seq<string>)
    requires clauses != []
    requires forall i :: 0 <= i < |clauses| ==> IsClauseOf(clauses[i], properties)
    ensures TrimEnd(Terminated(clauses), IsCommaOrSpace) == Join(clauses, ", ")
    ensures !IsBlank(Join(clauses, ", "))
  {
    var j := Join(clauses, ", ");
    TerminatedIsJoin(clauses);
    JoinOfClausesEndsInG(clauses, properties);
    var t := j + ", ";
    assert t[..|t| - 1] == j + ",";
    assert (j + ",")[..|j|] == j;
    assert !IsWhiteSpaceChar(j[|j| - 1]);
  }

  lemma {:induction false} TerminatedIsJoin(clauses: seq<string>)
    requires clauses != []
    ensures Terminated(clauses) == Join(clauses, ", ") + ", "
  {
    var init := clauses[..|clauses| - 1];
    var last := clauses[|clauses| - 1];
    assert init + [last] == clauses;
    if init != [] {
      TerminatedIsJoin(init);
      JoinSnoc(init, last, ", ");
    }
  }

  /** One clause per recognised piece, in input order: clauses of a concatenation concatenate. */
  lemma {:induction false} ClausesConcat(a: seq<string>, b: seq<string>, properties: seq<string>)
    ensures Clauses(a + b, properties) == Clauses(a, properties) + Clauses(b, properties)
    decreases |b|
  {
    if b == [] {
      assert a + b == a;
    } else {
      var init := b[..|b| - 1];
      assert (a + b)[..|a + b| - 1] == a + init;
      assert (a + b)[|a + b| - 1] == b[|b| - 1];
      ClausesConcat(a, init, properties);
    }
  }

  /**
   * A non-blank piece whose field name matches property k case-insensitively,
   * and no earlier property, yields property k's declared name and the
   * direction its suffix asks for.
   */
  lemma FirstMatchWins(piece: string, properties: seq<string>, k: nat)
    requires !IsBlank(piece)
    requires k < |properties| && EqualsIgnoreCase(properties[k], FieldName(piece))
    requires forall j :: 0 <= j < k ==> !EqualsIgnoreCase(properties[j], FieldName(piece))
    ensures AsksDescending(piece) ==> Clause(piece, properties) == Some(properties[k] + " descending")
    ensures !AsksDescending(piece) ==> Clause(piece, properties) == Some(properties[k] + " ascending")
  {
    var found := FindProperty(properties, FieldName(piece));
    assert found.Some?;
    assert found.value == k;
    assert properties[k] + " " + "descending" == properties[k] + " descending";
    assert properties[k] + " " + "ascending" == properties[k] + " ascending";
  }

  /** A piece is skipped exactly when it is blank or its field name matches no property. */
  lemma SkippedPiece(piece: string, properties: seq<string>)
    ensures Clause(piece, properties).None? <==>
      IsBlank(piece) || forall j :: 0 <= j < |properties| ==> !EqualsIgnoreCase(properties[j], FieldName(piece))
  {
    if !IsBlank(piece) && FindProperty(properties, FieldName(piece)).Some? {
      var k := FindProperty(properties, FieldName(piece)).value;
      assert EqualsIgnoreCase(properties[k], FieldName(piece));
    }
  }

  /**
   * Only the whole string is trimmed, so a piece that begins with a space
   * (as after ", ") has the empty field name, which no property has.
   */
  lemma PieceStartingWithSpaceIsSkipped(piece: string, properties: seq<string>)
    requires |piece| > 0 && piece[0] == ' '
    requires forall j :: 0 <= j < |properties| ==> properties[j] != ""
    ensures Clause(piece, properties) == None
  {
    assert FieldName(piece) == "";
    SkippedPiece(piece, properties);
  }

  /** The result is null exactly when there are no properties. */
  lemma OrderQueryNullIffNoProperties(orderByQueryString: string, properties: seq<string>)
    ensures OrderQuery(orderByQueryString, properties).None? <==> properties == []
  {
  }

  /**
   * A non-null result is a non-blank ", "-join of clauses, each naming a
   * property and a direction, and it ends in neither a comma nor a space.
   */
  lemma OrderQueryShape(orderByQueryString: string, properties: seq<string>)
    requires properties != []
    ensures OrderQuery(orderByQueryString, properties).Some?
    ensures var q := OrderQuery(orderByQueryString, properties).value;
      var cs := ResultClauses(orderByQueryString, properties);
      q == Join(cs, ", ") && cs != [] &&
      (forall i :: 0 <= i < |cs| ==> IsClauseOf(cs[i], properties)) &&
      !IsBlank(q) && |q| > 0 && !IsCommaOrSpace(q[|q| - 1])
  {
    var clauses := RequestedClauses(orderByQueryString, properties);
    var cs := ResultClauses(orderByQueryString, properties);
    if clauses == [] {
      var c := properties[0] + " ascending";
      assert cs == [c];
      assert IsClauseOf(c, properties);
      assert Join(cs, ", ") == c;
      assert c[|c| - 1] == 'g';
    } else {
      assert cs == clauses;
      JoinOfClausesEndsInG(clauses, properties);
      var q := Join(clauses, ", ");
      assert !IsWhiteSpaceChar(q[|q| - 1]);
    }
  }

  /** An empty or all-whitespace sort string falls back to the first property, ascending. */
  lemma BlankQueryFallsBack(orderByQueryString: string, properties: seq<string>)
    requires IsBlank(orderByQueryString)
    ensures RequestedClauses(orderByQueryString, properties) == []
    ensures OrderQuery(orderByQueryString, properties) ==
      if properties == [] then None else Some(properties[0] + " ascending")
  {
    TrimBlank(orderByQueryString);
    assert Split("", ',') == [""];
    assert [""][..0] == [];
    assert Clause("", properties) == None;
    assert Clauses([""], properties) == [];
  }

  /** A single piece contributes its clause, or nothing when it is skipped. */
  lemma ClausesOfOne(piece: string, properties: seq<string>)
    ensures Clauses([piece], properties) ==
      if Clause(piece, properties).Some? then [Clause(piece, properties).value] else []
  {
    assert [piece][..0] == [];
  }

  /** The field name of a piece whose first space is at index i. */
  lemma FieldNameUpToSpace(piece: string, i: nat)
    requires i < |piece| && piece[i] == ' ' && ' ' !in piece[..i]
    ensures FieldName(piece) == piece[..i]
  {
    SplitAtFirst(piece, ' ', i);
  }

  /** A piece without a space is its own field name. */
  lemma FieldNameWithoutSpace(piece: string)
    requires ' ' !in piece
    ensures FieldName(piece) == piece
  {
    SplitWithoutSeparator(piece, ' ');
  }

  /** A string that begins and ends with non-whitespace is unchanged by `Trim`. */
  lemma TrimUnchanged(s: string)
    requires |s| > 0 && !IsWhiteSpaceChar(s[0]) && !IsWhiteSpaceChar(s[|s| - 1])
    ensures Trim(s) == s && !IsBlank(s)
  {
  }

  /** The piece "name desc" over `Id, Name` gives "Name descending". */
  lemma NameDescPiece(piece: string, props: seq<string>)
    requires piece == "name desc" && props == ["Id", "Name"]
    ensures Clause(piece, props) == Some("Name descending")
  {
    NameDescFieldName(piece);
    NameMatchesName(props[0], props[1], piece[..4]);
    NameDescAsksDescending(piece);
    FirstMatchWins(piece, props, 1);
    assert props[1] + " descending" == "Name descending";
  }

  lemma NameDescFieldName(piece: string)
    requires piece == "name desc"
    ensures FieldName(piece) == piece[..4] && piece[..4] == "name"
  {
    assert piece[4] == ' ' && ' ' !in piece[..4];
    FieldNameUpToSpace(piece, 4);
  }

  lemma NameMatchesName(id: string, name: string, field: string)
    requires id == "Id" && name == "Name" && field == "name"
    ensures !EqualsIgnoreCase(id, field) && EqualsIgnoreCase(name, field)
  {
    assert ToLower(name[0]) == 'n';
  }

  lemma NameDescAsksDescending(piece: string)
    requires piece == "name desc"
    ensures AsksDescending(piece) && !IsBlank(piece)
  {
    assert piece[|piece| - 5..] == " desc";
    assert !IsWhiteSpaceChar(piece[0]);
  }

  /** The piece "id" over `Id, Name` gives "Id ascending". */
  lemma IdPiece(piece: string, props: seq<string>)
    requires piece == "id" && props == ["Id", "Name"]
    ensures Clause(piece, props) == Some("Id ascending")
  {
    FieldNameWithoutSpace(piece);
    assert EqualsIgnoreCase(props[0], piece) by {
      assert ToLower(props[0][0]) == 'i';
    }
    assert !AsksDescending(piece) && !IsBlank(piece) by {
      assert piece[|piece| - 2..] != " d" && !IsWhiteSpaceChar(piece[0]);
    }
    FirstMatchWins(piece, props, 0);
    assert props[0] + " ascending" == "Id ascending";
  }

  /** `"name desc, id"` splits at its comma into "name desc" and " id". */
  lemma SplitNameDescCommaSpaceId(s: string)
    requires s == "name desc, id"
    ensures Split(Trim(s), ',') == ["name desc", " id"]
  {
    TrimUnchanged(s);
    assert s[..9] == "name desc" && s[10..] == " id";
    SplitInTwo(s, ',', 9);
  }

  /** `"name desc, id"` over `Id, Name`: the " id" piece is dropped. */
  lemma NameDescCommaSpaceId(s: string, props: seq<string>)
    requires s == "name desc, id" && props == ["Id", "Name"]
    ensures OrderQuery(s, props) == Some("Name descending")
  {
    SplitNameDescCommaSpaceId(s);
    var pieces := Split(Trim(s), ',');
    NameDescPiece(pieces[0], props);
    SpaceIdPiece(pieces[1], props);
    ClausesOfPair(pieces, props);
    assert Join(["Name descending"], ", ") == "Name descending";
  }

  lemma SpaceIdPiece(piece: string, props: seq<string>)
    requires piece == " id" && props == ["Id", "Name"]
    ensures Clause(piece, props) == None
  {
    PieceStartingWithSpaceIsSkipped(piece, props);
  }

  /** Two pieces contribute their clauses in order. */
  lemma ClausesOfPair(pieces: seq<string>, properties: seq<string>)
    requires |pieces| == 2
    ensures Clauses(pieces, properties) ==
      (if Clause(pieces[0], properties).Some? then [Clause(pieces[0], properties).value] else []) +
      (if Clause(pieces[1], properties).Some? then [Clause(pieces[1], properties).value] else [])
  {
    ClausesOfOne(pieces[0], properties);
    ClausesOfOne(pieces[1], properties);
    ClausesConcat([pieces[0]], [pieces[1]], properties);
    assert [pieces[0]] + [pieces[1]] == pieces;
  }

  /** `"name desc,id"` splits at its comma into "name desc" and "id". */
  lemma SplitNameDescCommaId(s: string)
    requires s == "name desc,id"
    ensures Split(Trim(s), ',') == ["name desc", "id"]
  {
    TrimUnchanged(s);
    assert s[..9] == "name desc" && s[10..] == "id";
    SplitInTwo(s, ',', 9);
  }

  /** Without the space, both pieces are recognised and joined in input order. */
  lemma NameDescCommaId(s: string, props: seq<string>)
    requires s == "name desc,id" && props == ["Id", "Name"]
    ensures OrderQuery(s, props) == Some("Name descending, Id ascending")
  {
    NameDescCommaIdClauses(s, props);
    JoinTwo("Name descending", "Id ascending");
  }

  lemma NameDescCommaIdClauses(s: string, props: seq<string>)
    requires s == "name desc,id" && props == ["Id", "Name"]
    ensures RequestedClauses(s, props) == ["Name descending", "Id ascending"]
  {
    SplitNameDescCommaId(s);
    var pieces := Split(Trim(s), ',');
    NameDescPiece(pieces[0], props);
    IdPiece(pieces[1], props);
    ClausesOfPair(pieces, props);
  }

  lemma JoinTwo(a: string, b: string)
    requires a == "Name descending" && b == "Id ascending"
    ensures Join([a, b], ", ") == "Name descending, Id ascending"
  {
    assert [a, b][1..] == [b];
  }

  /** An unknown field name matches nothing, so the whole string falls back. */
  lemma UnknownField(s: string, props: seq<string>)
    requires s == "unknownfield" && props == ["Id", "Name"]
    ensures OrderQuery(s, props) == Some("Id ascending")
  {
    UnknownFieldPieces(s);
    UnknownPiece(s, props);
    ClausesOfOne(s, props);
    assert props[0] + " ascending" == "Id ascending";
  }

  lemma UnknownFieldPieces(s: string)
    requires s == "unknownfield"
    ensures Split(Trim(s), ',') == [s]
  {
    TrimUnchanged(s);
    SplitWithoutSeparator(s, ',');
  }

  lemma UnknownPiece(piece: string, props: seq<string>)
    requires piece == "unknownfield" && props == ["Id", "Name"]
    ensures Clause(piece, props) == None
  {
    FieldNameWithoutSpace(piece);
    assert !EqualsIgnoreCase(props[0], piece) && !EqualsIgnoreCase(props[1], piece);
    SkippedPiece(piece, props);
  }

  /** The empty string falls back to "Id ascending"; no properties gives null. */
  lemma FallbackScenarios(props: seq<string>)
    requires props == ["Id", "Name"]
    ensures OrderQuery("", props) == Some("Id ascending")
    ensures OrderQuery("name", []) == None
  {
    BlankQueryFallsBack("", props);
    assert props[0] + " ascending" == "Id ascending";
    OrderQueryNullIffNoProperties("name", []);
  }
}
