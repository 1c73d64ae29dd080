/**
 * The configuration read at start-up: the allowlist parsed from `ALLOWED_TRADERS`
 * (`get_env_config`) and the checks `main` makes before it starts the auto-accepter.
 */
module Config {

  import opened Wrappers
  import opened Text

  /** The stripped, non-empty pieces, in order: the comprehension of `get_env_config`. */
  function Entries(pieces: seq<string>): (r: seq<string>)
    ensures |r| <= |pieces|
    ensures forall k :: 0 <= k < |r| ==> r[k] != [] && Strip(r[k]) == r[k]
  {
    if pieces == [] then []
    else
      var e := Strip(pieces[|pieces| - 1]);
      StripIdempotent(pieces[|pieces| - 1]);
      Entries(pieces[..|pieces| - 1]) + (if e != [] then [e] else [])
  }

  /** Every entry is the stripped form of some piece. */
  lemma {:induction false} EntriesSound(pieces: seq<string>, k: nat)
    requires k < |Entries(pieces)|
    ensures exists j :: 0 <= j < |pieces| && Entries(pieces)[k] == Strip(pieces[j])
  {
    var n := |pieces| - 1;
    if k < |Entries(pieces[..n])| {
      EntriesSound(pieces[..n], k);
      var j :| 0 <= j < n && Entries(pieces[..n])[k] == Strip(pieces[..n][j]);
      assert pieces[..n][j] == pieces[j];
    }
  }

  /** Every piece that is not blank contributes its stripped form. */
  lemma {:induction false} EntriesComplete(pieces: seq<string>, j: nat)
    requires j < |pieces| && Strip(pieces[j]) != []
    ensures Strip(pieces[j]) in Entries(pieces)
  {
    var n := |pieces| - 1;
    if j < n {
      assert pieces[..n][j] == pieces[j];
      EntriesComplete(pieces[..n], j);
    }
  }

  /** Pieces that are already stripped and non-empty are kept as they are. */
  lemma {:induction false} EntriesOfClean(pieces: seq<string>)
    requires forall k :: 0 <= k < |pieces| ==> pieces[k] != [] && Strip(pieces[k]) == pieces[k]
    ensures Entries(pieces) == pieces
  {
    if pieces != [] {
      var n := |pieces| - 1;
      EntriesOfClean(pieces[..n]);
      assert pieces[..n] + [pieces[n]] == pieces;
    }
  }

  /** `ALLOWED_TRADERS`, unset or empty meaning no allowlist. */
  function ParseAllowedTraders(env: Option<string>): (r: Option<seq<string>>)
    ensures r.None? <==> (env.None? || env.value == [])
    ensures r.Some? ==> forall k :: 0 <= k < |r.value| ==> r.value[k] != [] && Strip(r.value[k]) == r.value[k]
  {
    if env.None? || env.value == [] then None
    else Some(Entries(Split(env.value, ',')))
  }

  /** A parsed allowlist holds exactly the stripped non-blank comma-separated pieces, none with a comma. */
  lemma ParsedAllowlist(env: string, e: string)
    requires env != []
    ensures e in ParseAllowedTraders(Some(env)).value <==>
            e != [] && exists j :: 0 <= j < |Split(env, ',')| && Strip(Split(env, ',')[j]) == e
    ensures e in ParseAllowedTraders(Some(env)).value ==> ',' !in e
  {
    var pieces := Split(env, ',');
    var r := Entries(pieces);
    assert ParseAllowedTraders(Some(env)) == Some(r);
    if e in r {
      var k :| 0 <= k < |r| && r[k] == e;
      EntriesSound(pieces, k);
      var j :| 0 <= j < |pieces| && e == Strip(pieces[j]);
      StripKeepsOut(pieces[j], ',');
      assert e != [] && ',' !in e;
      assert exists j :: 0 <= j < |Split(env, ',')| && Strip(Split(env, ',')[j]) == e;
    }
    if e != [] && exists j :: 0 <= j < |pieces| && Strip(pieces[j]) == e {
      var j :| 0 <= j < |pieces| && Strip(pieces[j]) == e;
      EntriesComplete(pieces, j);
      assert e in r;
    }
  }

  /** Writing an allowlist of clean entries with commas and parsing it gives it back. */
  lemma ParseJoinedAllowlist(names: seq<string>)
    requires |names| >= 1
    requires forall k :: 0 <= k < |names| ==> names[k] != [] && Strip(names[k]) == names[k] && ',' !in names[k]
    ensures ParseAllowedTraders(Some(Join(names, ','))) == Some(names)
  {
    assert |Join(names, ',')| >= |names[0]|;
    SplitJoin(names, ',');
    EntriesOfClean(names);
  }

  /** A value of only commas is an allowlist, but an empty one. */
  lemma CommasOnlyIsEmptyAllowlist()
    ensures ParseAllowedTraders(Some(",,")) == Some([])
  {
    assert ",,"[1..] == "," && ","[1..] == "";
    assert Split("", ',') == [""];
    assert Split(",", ',') == ["", ""];
    var pieces := ["", "", ""];
    assert Split(",,", ',') == pieces;
    assert LeadingSpaces("") == 0 && TrailingSpaces("") == 0;
    assert Strip("") == "";
    assert pieces[..2] == ["", ""] && pieces[..2][..1] == [""] && pieces[..2][..1][..0] == [];
    assert Entries(pieces[..2][..1]) == [];
    assert Entries(pieces[..2]) == [];
  }

  /** Why `main` refuses to start. */
  datatype ConfigError = MissingUsername | MissingPassword | NoAllowedTraders

  /** The outcome of the start-up checks. */
  datatype Validation = Ready(username: string, password: string, allowed: seq<string>) | Refused(error: ConfigError)

  /** A Python value that is truthy: set and not empty. */
  predicate Truthy<T>(o: Option<seq<T>>)
  {
    o.Some? && o.value != []
  }

  /** The checks of `main`, made in order: username, password, then the allowlist. */
  function ValidateConfig(username: Option<string>, password: Option<string>, allowed: Option<seq<string>>): (r: Validation)
    ensures r.Ready? <==> Truthy(username) && Truthy(password) && Truthy(allowed)
    ensures r.Ready? ==> r == Ready(username.value, password.value, allowed.value)
    ensures r == Refused(MissingUsername) <==> !Truthy(username)
    ensures r == Refused(MissingPassword) <==> Truthy(username) && !Truthy(password)
    ensures r == Refused(NoAllowedTraders) <==> Truthy(username) && Truthy(password) && !Truthy(allowed)
  {
    if !Truthy(username) then Refused(MissingUsername)
    else if !Truthy(password) then Refused(MissingPassword)
    else if !Truthy(allowed) then Refused(NoAllowedTraders)
    else Ready(username.value, password.value, allowed.value)
  }

  /** Once the checks pass, the allowlist is non-empty and has no empty entry. */
  lemma ReadyAllowlistIsClean(username: Option<string>, password: Option<string>, env: Option<string>)
    requires ValidateConfig(username, password, ParseAllowedTraders(env)).Ready?
    ensures var a := ValidateConfig(username, password, ParseAllowedTraders(env)).allowed;
            a != [] && [] !in a
  {
  }
}
