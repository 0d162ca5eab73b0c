/** The pure helpers of secretary/util.py: alias escaping, the setting value
    check, the identifier and URL predicates, and `non_empty_string`, the
    argument-splitting helper of the chat commands. */
module Util {
  import opened Results

  // ---------------------------------------------------------------- escape_as_alias

  /** The translation table of `escape_as_alias`: German umlauts and sharp s
      become ASCII digraphs and a space becomes an underscore. */
  function FoldChar(c: char): string {
    match c
    case 'ä' => "ae"
    case 'ü' => "ue"
    case 'ö' => "oe"
    case 'ß' => "ss"
    case 'Ä' => "Ae"
    case 'Ü' => "Ue"
    case 'Ö' => "Oe"
    case ' ' => "_"
    case _ => [c]
  }

  /** `s.translate(umlaut_map)`. */
  function Translate(s: string): string {
    if s == [] then [] else FoldChar(s[0]) + Translate(s[1..])
  }

  /** The class `[a-zA-Z0-9_]`. */
  predicate IsWordChar(c: char) {
    'a' <= c <= 'z' || 'A' <= c <= 'Z' || '0' <= c <= '9' || c == '_'
  }

  /** The characters an escaped alias is made of: `[a-z0-9_]`. */
  predicate IsAliasChar(c: char) {
    'a' <= c <= 'z' || '0' <= c <= '9' || c == '_'
  }

  /** `re.sub(r"[^a-zA-Z0-9_]", '', s)`. */
  function StripNonWord(s: string): (r: string)
    ensures forall i :: 0 <= i < |r| ==> IsWordChar(r[i])
  {
    if s == [] then []
    else if IsWordChar(s[0]) then [s[0]] + StripNonWord(s[1..])
    else StripNonWord(s[1..])
  }

  /** `c.lower()` on an ASCII character. */
  function LowerChar(c: char): char {
    if 'A' <= c <= 'Z' then (c as int - 'A' as int + 'a' as int) as char else c
  }

  /** `s.lower()`; on `[a-zA-Z0-9_]` Python lowers exactly the ASCII capitals. */
  function Lower(s: string): (r: string)
    ensures |r| == |s|
    ensures forall i :: 0 <= i < |s| ==> r[i] == LowerChar(s[i])
    ensures forall i :: 0 <= i < |s| && IsWordChar(s[i]) ==> IsAliasChar(r[i])
  {
    if s == [] then [] else [LowerChar(s[0])] + Lower(s[1..])
  }

  /** `escape_as_alias(alias)`: every character of the result is in `[a-z0-9_]`. */
  function EscapeAsAlias(alias: string): (r: string)
    ensures forall i :: 0 <= i < |r| ==> IsAliasChar(r[i])
  {
    Lower(StripNonWord(Translate(alias)))
  }

  lemma {:induction false} TranslateConcat(a: string, b: string)
    ensures Translate(a + b) == Translate(a) + Translate(b)
  {
    if a == [] {
      assert a + b == b;
    } else {
      assert (a + b)[1..] == a[1..] + b;
      TranslateConcat(a[1..], b);
    }
  }

  lemma {:induction false} StripConcat(a: string, b: string)
    ensures StripNonWord(a + b) == StripNonWord(a) + StripNonWord(b)
  {
    if a == [] {
      assert a + b == b;
    } else {
      assert (a + b)[1..] == a[1..] + b;
      StripConcat(a[1..], b);
    }
  }

  lemma {:induction false} LowerConcat(a: string, b: string)
    ensures Lower(a + b) == Lower(a) + Lower(b)
  {
    if a == [] {
      assert a + b == b;
    } else {
      assert (a + b)[1..] == a[1..] + b;
      LowerConcat(a[1..], b);
    }
  }

  /** Escaping works character by character: it distributes over concatenation. */
  lemma EscapeConcat(a: string, b: string)
    ensures EscapeAsAlias(a + b) == EscapeAsAlias(a) + EscapeAsAlias(b)
  {
    TranslateConcat(a, b);
    StripConcat(Translate(a), Translate(b));
    LowerConcat(StripNonWord(Translate(a)), StripNonWord(Translate(b)));
  }

  /** What one input character becomes, written independently of the three
      passes: umlauts in either case become lower-case digraphs, space and
      underscore an underscore, ASCII letters their lower case, digits
      themselves, and every other character nothing. */
  function EscapedChar(c: char): string {
    if c == 'ä' || c == 'Ä' then "ae"
    else if c == 'ü' || c == 'Ü' then "ue"
    else if c == 'ö' || c == 'Ö' then "oe"
    else if c == 'ß' then "ss"
    else if c == ' ' || c == '_' then "_"
    else if 'A' <= c <= 'Z' then [LowerChar(c)]
    else if 'a' <= c <= 'z' || '0' <= c <= '9' then [c]
    else ""
  }

  /** The reference definition: the escaped characters, concatenated in order. */
  function EscapedChars(s: string): string {
    if s == [] then "" else EscapedChar(s[0]) + EscapedChars(s[1..])
  }

  lemma {:induction false} WordCharsKept(t: string)
    requires forall i :: 0 <= i < |t| ==> IsWordChar(t[i])
    ensures StripNonWord(t) == t
  {
    if t != [] {
      WordCharsKept(t[1..]);
    }
  }

  lemma EscapeOneChar(c: char)
    ensures EscapeAsAlias([c]) == EscapedChar(c)
  {
    assert [c][1..] == [];
    var f := FoldChar(c);
    assert Translate([c]) == f;
    if c in "äüößÄÜÖ " {
      WordCharsKept(f);
      assert Lower(f) == EscapedChar(c);
    } else {
      assert f == [c];
      if IsWordChar(c) {
        assert StripNonWord([c]) == [c];
      } else {
        assert StripNonWord([c]) == [];
      }
    }
  }

  /** `escape_as_alias` agrees with the character-by-character reference. */
  lemma {:induction false} EscapeMatchesReference(s: string)
    ensures EscapeAsAlias(s) == EscapedChars(s)
  {
    if s == [] {
      assert EscapeAsAlias(s) == "";
    } else {
      assert s == [s[0]] + s[1..];
      EscapeConcat([s[0]], s[1..]);
      EscapeOneChar(s[0]);
      EscapeMatchesReference(s[1..]);
    }
  }

  lemma {:induction false} AliasCharsFixed(t: string)
    requires forall i :: 0 <= i < |t| ==> IsAliasChar(t[i])
    ensures Translate(t) == t && StripNonWord(t) == t && Lower(t) == t
  {
    if t != [] {
      AliasCharsFixed(t[1..]);
    }
  }

  /** Escaping an escaped alias changes nothing. */
  lemma EscapeIdempotent(alias: string)
    ensures EscapeAsAlias(EscapeAsAlias(alias)) == EscapeAsAlias(alias)
  {
    AliasCharsFixed(EscapeAsAlias(alias));
  }

  lemma EscapedCharsCons(c: char, s: string)
    ensures EscapedChars([c] + s) == EscapedChar(c) + EscapedChars(s)
  {
    assert ([c] + s)[1..] == s;
  }

  /** The worked example: "Büro Raum" becomes "buero_raum". */
  lemma EscapeExample()
    ensures EscapeAsAlias("Büro Raum") == "buero_raum"
  {
    EscapeMatchesReference("Büro Raum");
    ReferenceExample("Büro Raum");
  }

  lemma {:induction false} EscapedCharsAppend(a: string, b: string)
    ensures EscapedChars(a + b) == EscapedChars(a) + EscapedChars(b)
  {
    if a != [] {
      assert (a + b)[1..] == a[1..] + b;
      EscapedCharsAppend(a[1..], b);
    } else {
      assert a + b == b;
    }
  }

  lemma ReferenceExampleHead()
    ensures EscapedChars("Büro ") == "buero_"
  {
    assert "Büro " == ['B'] + "üro ";
    EscapedCharsCons('B', "üro ");
    assert "üro " == ['ü'] + "ro ";
    EscapedCharsCons('ü', "ro ");
    assert "ro " == ['r'] + "o ";
    EscapedCharsCons('r', "o ");
    assert "o " == ['o'] + " ";
    EscapedCharsCons('o', " ");
    assert " " == [' '] + "";
    EscapedCharsCons(' ', "");
  }

  lemma ReferenceExampleTail()
    ensures EscapedChars("Raum") == "raum"
  {
    assert "Raum" == ['R'] + "aum";
    EscapedCharsCons('R', "aum");
    assert "aum" == ['a'] + "um";
    EscapedCharsCons('a', "um");
    assert "um" == ['u'] + "m";
    EscapedCharsCons('u', "m");
    assert "m" == ['m'] + "";
    EscapedCharsCons('m', "");
  }

  lemma ReferenceExample(s: string)
    requires s == "Büro Raum"
    ensures EscapedChars(s) == "buero_raum"
  {
    ReferenceExampleHead();
    ReferenceExampleTail();
    assert s == "Büro " + "Raum";
    EscapedCharsAppend("Büro ", "Raum");
    assert "buero_" + "raum" == "buero_raum";
  }

  // ---------------------------------------------------------------- is_legal

  /** The `legal_dict` of `is_legal`: the accepted values per setting. */
  const LegalValues: map<string, seq<string>> := map[
    "guest_access" := ["can_join", "forbidden"],
    "history_visibility" := ["shared", "invited", "joined", "world_readable"],
    "join_rule" := ["public", "knock", "invite", "private", "restricted", "knock_restricted"],
    "visibility" := ["public", "private"]
  ]

  /** `is_legal(key, value)`: raises ValueError exactly when `key` is one of
      the four checked settings and `value` is not among its values. */
  function IsLegal(key: string, value: string): (r: Result<()>)
    ensures r.Err? <==> key in LegalValues && value !in LegalValues[key]
    ensures r.Err? ==> r.error == ValueError(key)
  {
    if key in LegalValues && value !in LegalValues[key] then Err(ValueError(key)) else Ok(())
  }

  /** `m.room.guest_access` content values of the Matrix Client-Server API. */
  predicate MatrixGuestAccess(v: string) { v == "can_join" || v == "forbidden" }

  /** `m.room.history_visibility` values of the Matrix Client-Server API. */
  predicate MatrixHistoryVisibility(v: string) {
    v == "invited" || v == "joined" || v == "shared" || v == "world_readable"
  }

  /** `m.room.join_rules` join rules of the Matrix Client-Server API. */
  predicate MatrixJoinRule(v: string) {
    v == "public" || v == "knock" || v == "invite" || v == "private" || v == "restricted" || v == "knock_restricted"
  }

  /** Room directory visibilities of the Matrix Client-Server API. */
  predicate MatrixVisibility(v: string) { v == "public" || v == "private" }

  /** The checked settings accept exactly the values the Matrix
      Client-Server API defines for them; every other setting is accepted. */
  lemma IsLegalMatchesMatrix(key: string, value: string)
    ensures key == "guest_access" ==> (IsLegal(key, value).Ok? <==> MatrixGuestAccess(value))
    ensures key == "history_visibility" ==> (IsLegal(key, value).Ok? <==> MatrixHistoryVisibility(value))
    ensures key == "join_rule" ==> (IsLegal(key, value).Ok? <==> MatrixJoinRule(value))
    ensures key == "visibility" ==> (IsLegal(key, value).Ok? <==> MatrixVisibility(value))
    ensures key !in {"guest_access", "history_visibility", "join_rule", "visibility"} ==> IsLegal(key, value).Ok?
  {
  }

  // ---------------------------------------------------------------- identifier and URL predicates

  /** Where the first line of `s` ends: the first line break, or `|s|`.
      Python's `.` matches any character but a line break. */
  function LineEnd(s: string): (n: nat)
    ensures n <= |s|
    ensures forall i :: 0 <= i < n ==> s[i] != '\n'
    ensures n < |s| ==> s[n] == '\n'
  {
    if s == [] || s[0] == '\n' then 0 else 1 + LineEnd(s[1..])
  }

  /** Without MULTILINE, `$` matches at the end of `s` or just before a line
      break that ends `s`; `.*` can reach it only inside the first line. */
  predicate FirstLineIsAll(s: string) {
    LineEnd(s) == |s| || LineEnd(s) == |s| - 1
  }

  /** `re.match(sigil + ".*:.*$", s)` succeeds: the sigil first, then a colon
      later on the first line, and nothing after that line but a final break. */
  predicate SigilColonMatch(s: string, sigil: char) {
    && |s| > 0 && s[0] == sigil
    && (exists k :: 1 <= k < LineEnd(s) && s[k] == ':')
    && FirstLineIsAll(s)
  }

  /** `is_matrix_room_id`: `^!.*:.*$`. */
  predicate IsMatrixRoomId(s: string) {
    SigilColonMatch(s, '!')
  }

  /** `is_matrix_room_alias`: `^#.*:.*$`. */
  predicate IsMatrixRoomAlias(s: string) {
    SigilColonMatch(s, '#')
  }

  /** `is_legal_http_url`: `^https?://.*$`. */
  predicate IsLegalHttpUrl(s: string) {
    ("http://" <= s || "https://" <= s) && FirstLineIsAll(s)
  }

  /** `is_legal_mxc_url`: `^mxc://.*$`. */
  predicate IsLegalMxcUrl(s: string) {
    "mxc://" <= s && FirstLineIsAll(s)
  }

  lemma {:induction false} LineEndNoBreak(s: string)
    requires '\n' !in s
    ensures LineEnd(s) == |s|
  {
    if s != [] {
      assert s[0] in s;
      assert forall c :: c in s[1..] ==> c in s;
      LineEndNoBreak(s[1..]);
    }
  }

  /** On a line without breaks, a room id is a string that starts with `!`
      and has a colon after it, as in the Matrix identifier grammar's
      `!opaque_id:server_name`; aliases the same with `#`. */
  lemma RoomIdShape(s: string)
    requires '\n' !in s
    ensures IsMatrixRoomId(s) <==> |s| > 0 && s[0] == '!' && ':' in s[1..]
    ensures IsMatrixRoomAlias(s) <==> |s| > 0 && s[0] == '#' && ':' in s[1..]
  {
    LineEndNoBreak(s);
    if |s| > 0 && ':' in s[1..] {
      var k :| 0 <= k < |s[1..]| && s[1..][k] == ':';
      assert s[k + 1] == ':';
    }
    if exists k :: 1 <= k < LineEnd(s) && s[k] == ':' {
      var k :| 1 <= k < LineEnd(s) && s[k] == ':';
      assert s[1..][k - 1] == ':';
    }
  }

  /** On a line without breaks, the URL checks are prefix tests. */
  lemma UrlShape(s: string)
    requires '\n' !in s
    ensures IsLegalHttpUrl(s) <==> "http://" <= s || "https://" <= s
    ensures IsLegalMxcUrl(s) <==> "mxc://" <= s
  {
    LineEndNoBreak(s);
  }

  /** `$` lets a single final line break through but nothing after it. */
  lemma RoomIdLineBreaks()
    ensures IsMatrixRoomId("!a:b\n")
    ensures !IsMatrixRoomId("!a:b\nc")
    ensures !IsMatrixRoomId("!ab\n:c")
  {
    assert LineEnd("!a:b\n") == 4 by {
      assert "!a:b\n"[1..][1..][1..][1..] == "\n";
    }
    assert "!a:b\n"[2] == ':';
    assert LineEnd("!a:b\nc") == 4 by {
      assert "!a:b\nc"[1..][1..][1..][1..] == "\nc";
    }
    assert LineEnd("!ab\n:c") == 3 by {
      assert "!ab\n:c"[1..][1..][1..] == "\n:c";
    }
  }

  // ---------------------------------------------------------------- non_empty_string

  /** `non_empty_string(x)`, the parser of the command arguments: an empty
      argument is passed on as `(x, None)`, any other as `("", x)`. */
  function NonEmptyString(x: string): (r: (string, Option<string>))
    ensures r.0 == ""
    ensures r.1 == None <==> x == ""
    ensures r.1 != None ==> r.1 == Some(x)
  {
    if x == "" then (x, None) else ("", Some(x))
  }
}
