/**
 * The wire parser of src/Protocol.cpp with that file's own RequestType
 * (Login .. Ping, Unknown): split, request_type_from_string and
 * parse_request_line, plus the line format they accept.
 */
module Protocol {

  /** RequestType as src/Protocol.cpp uses it. */
  datatype RequestType =
    | Login | Logout | CreateLobby | JoinLobby | LeaveLobby
    | Move | Rematch | Ping | Unknown

  /** A parsed line; validMagic keeps the header's default of true. */
  datatype Request = Request(kind: RequestType, params: seq<string>, validMagic: bool)

  /** PROTOCOL_MAGIC */
  const Magic: string := "MRLLN"

  /** The field separator of a protocol line. */
  const Delim: char := '|'

  /** The prefix every client request tag carries. */
  const RequestPrefix: string := "REQ_"

  /** A default-constructed Request: no type, no params. */
  const NoRequest: Request := Request(Unknown, [], true)

  // ---------------------------------------------------------------------
  // split
  // ---------------------------------------------------------------------

  /**
   * split(s, d): the segments between delimiters, empty ones included,
   * always at least one.
   */
  function Split(s: string, d: char): (parts: seq<string>)
    ensures |parts| >= 1
    ensures forall i :: 0 <= i < |parts| ==> d !in parts[i]
    decreases |s|
  {
    if s == [] then [""]
    else
      var rest := Split(s[1..], d);
      if s[0] == d then [""] + rest
      else [[s[0]] + rest[0]] + rest[1..]
  }

  /** The segments put back together with d between neighbours. */
  function Join(parts: seq<string>, d: char): string
    requires |parts| >= 1
    decreases |parts|
  {
    if |parts| == 1 then parts[0] else parts[0] + [d] + Join(parts[1..], d)
  }

  /** The number of occurrences of d in s. */
  function Occurrences(s: string, d: char): nat {
    multiset(s)[d]
  }

  /** Joining the segments with the delimiter reproduces the input. */
  lemma {:induction false} JoinSplit(s: string, d: char)
    ensures Join(Split(s, d), d) == s
    decreases |s|
  {
    if s != [] {
      var rest := Split(s[1..], d);
      JoinSplit(s[1..], d);
      if s[0] == d {
        assert Split(s, d)[1..] == rest;
        assert s == [d] + s[1..];
      } else {
        var parts := Split(s, d);
        if |rest| == 1 {
          assert parts == [[s[0]] + rest[0]];
        } else {
          assert parts[1..] == rest[1..];
          assert Join(rest, d) == rest[0] + [d] + Join(rest[1..], d);
        }
        assert s == [s[0]] + s[1..];
      }
    }
  }

  /** Splitting a join of delimiter-free segments gives the segments back. */
  lemma {:induction false} SplitJoin(parts: seq<string>, d: char)
    requires |parts| >= 1
    requires forall i :: 0 <= i < |parts| ==> d !in parts[i]
    ensures Split(Join(parts, d), d) == parts
    decreases |parts|, |parts[0]|
  {
    var s := Join(parts, d);
    if parts[0] == [] {
      if |parts| > 1 {
        SplitJoin(parts[1..], d);
        assert s == [d] + Join(parts[1..], d);
        assert s[1..] == Join(parts[1..], d);
        assert [""] + parts[1..] == parts;
      }
    } else {
      var shorter := [parts[0][1..]] + parts[1..];
      assert d !in shorter[0] by {
        assert forall c :: c in parts[0][1..] ==> c in parts[0];
      }
      SplitJoin(shorter, d);
      assert parts[0] == [parts[0][0]] + parts[0][1..];
      if |parts| == 1 {
        assert s[1..] == Join(shorter, d);
      } else {
        assert shorter[1..] == parts[1..];
        assert s[1..] == Join(shorter, d);
      }
      assert s[0] == parts[0][0];
      assert parts[0][0] != d;
      assert Split(s, d) == [[s[0]] + shorter[0]] + shorter[1..];
      assert [[parts[0][0]] + parts[0][1..]] + parts[1..] == parts;
    }
  }

  /** There is exactly one more segment than there are delimiters. */
  lemma {:induction false} SplitCount(s: string, d: char)
    ensures |Split(s, d)| == Occurrences(s, d) + 1
    decreases |s|
  {
    if s != [] {
      SplitCount(s[1..], d);
      assert s == [s[0]] + s[1..];
      assert multiset(s) == multiset([s[0]]) + multiset(s[1..]);
    }
  }

  /** The documented example: empty segments are kept. */
  lemma SplitKeepsEmptySegments()
    ensures Split("A||B", '|') == ["A", "", "B"]
  {
    var parts := ["A", "", "B"];
    SplitJoin(parts, '|');
    assert Join(parts[2..], '|') == "B";
    assert Join(parts[1..], '|') == "|B";
    assert Join(parts, '|') == "A||B";
  }

  // ---------------------------------------------------------------------
  // request_type_from_string
  // ---------------------------------------------------------------------

  /** The tag each known request type is written with. */
  function TagOf(t: RequestType): (tag: string)
    requires t != Unknown
  {
    match t
    case Login => "REQ_LOGIN"
    case Logout => "REQ_LOGOUT"
    case CreateLobby => "REQ_CREATE_LOBBY"
    case JoinLobby => "REQ_JOIN_LOBBY"
    case LeaveLobby => "REQ_LEAVE_LOBBY"
    case Move => "REQ_MOVE"
    case Rematch => "REQ_REMATCH"
    case Ping => "REQ_PING"
  }

  /** request_type_from_string: the eight listed tags, anything else Unknown. */
  function RequestTypeFromString(s: string): (t: RequestType)
    ensures t != Unknown ==> TagOf(t) == s
  {
    if s == "REQ_LOGIN" then Login
    else if s == "REQ_LOGOUT" then Logout
    else if s == "REQ_CREATE_LOBBY" then CreateLobby
    else if s == "REQ_JOIN_LOBBY" then JoinLobby
    else if s == "REQ_LEAVE_LOBBY" then LeaveLobby
    else if s == "REQ_MOVE" then Move
    else if s == "REQ_REMATCH" then Rematch
    else if s == "REQ_PING" then Ping
    else Unknown
  }

  /** Every known type is recognised from its own tag. */
  lemma TagRoundTrip(t: RequestType)
    requires t != Unknown
    ensures RequestTypeFromString(TagOf(t)) == t
  {
  }

  /** A string maps to a known type exactly when it is one of the tags. */
  lemma {:induction false} KnownExactlyOnTags(s: string)
    ensures RequestTypeFromString(s) != Unknown <==> exists t :: t != Unknown && TagOf(t) == s
  {
    if exists t :: t != Unknown && TagOf(t) == s {
      var t :| t != Unknown && TagOf(t) == s;
      TagRoundTrip(t);
    }
  }

  // ---------------------------------------------------------------------
  // parse_request_line
  // ---------------------------------------------------------------------

  predicate HasPrefix(s: string, p: string) {
    |p| <= |s| && s[..|p|] == p
  }

  /**
   * parse_request_line as written: the default request unless there are
   * two fields, field 0 is the magic and field 1 starts with "REQ_";
   * otherwise the tag's type and fields 2.. as params. valid_magic is
   * never assigned and so stays true.
   */
  function ParseRequestLine(line: string): (r: Request)
    ensures r.validMagic
  {
    var parts := Split(line, Delim);
    if |parts| < 2 then NoRequest
    else if parts[0] != Magic then NoRequest
    else if !HasPrefix(parts[1], RequestPrefix) then NoRequest
    else Request(RequestTypeFromString(parts[1]), parts[2..], true)
  }

  /** The line a client sends for a request: magic, tag, then the params. */
  function RequestLine(tag: string, params: seq<string>): string {
    Join([Magic, tag] + params, Delim)
  }

  /**
   * The converse of the round trip: anything but the default request comes
   * from a line of at least two fields whose field 0 is the magic and whose
   * field 1 carries the "REQ_" prefix, and its params are the fields after
   * those two, none holding the delimiter; a request of a known type has
   * that type's own tag as field 1.
   */
  lemma ParseRequestLineSound(line: string)
    ensures var parts := Split(line, Delim);
      var r := ParseRequestLine(line);
      && (r != NoRequest ==>
            |parts| >= 2 && parts[0] == Magic && HasPrefix(parts[1], RequestPrefix) && r.params == parts[2..])
      && (r.kind != Unknown ==>
            |parts| >= 2 && parts[0] == Magic && parts[1] == TagOf(r.kind) && r.params == parts[2..])
      && forall i :: 0 <= i < |r.params| ==> Delim !in r.params[i]
  {
  }

  /** A well-formed request line parses to its type and exactly its params, in order. */
  lemma ParseRequestLineRoundTrip(t: RequestType, params: seq<string>)
    requires t != Unknown
    requires forall i :: 0 <= i < |params| ==> Delim !in params[i]
    ensures ParseRequestLine(RequestLine(TagOf(t), params)) == Request(t, params, true)
  {
    var fields := [Magic, TagOf(t)] + params;
    SplitJoin(fields, Delim);
    assert fields[2..] == params;
    assert HasPrefix(TagOf(t), RequestPrefix);
  }

  /** An unrecognised REQ_ tag still yields its params, with type Unknown. */
  lemma UnknownTagKeepsParams(tag: string, params: seq<string>)
    requires HasPrefix(tag, RequestPrefix) && Delim !in tag
    requires RequestTypeFromString(tag) == Unknown
    requires forall i :: 0 <= i < |params| ==> Delim !in params[i]
    ensures ParseRequestLine(RequestLine(tag, params)) == Request(Unknown, params, true)
  {
    var fields := [Magic, tag] + params;
    SplitJoin(fields, Delim);
    assert fields[2..] == params;
  }

  /** A line without a field separator has one field and parses to the default request. */
  lemma {:induction false} OneFieldIsDefault(line: string)
    requires Delim !in line
    ensures |Split(line, Delim)| == 1
    ensures ParseRequestLine(line) == NoRequest
  {
    SplitCount(line, Delim);
    assert multiset(line)[Delim] == 0;
  }

  /** A line whose field 1 lacks the "REQ_" prefix parses to the default request. */
  lemma UntaggedIsDefault(tag: string, params: seq<string>)
    requires !HasPrefix(tag, RequestPrefix) && Delim !in tag
    requires forall i :: 0 <= i < |params| ==> Delim !in params[i]
    ensures ParseRequestLine(RequestLine(tag, params)) == NoRequest
  {
    SplitJoin([Magic, tag] + params, Delim);
  }

  /** A line that does not start with the magic parses to the default request. */
  lemma WrongMagicIsDefault(tag: string, params: seq<string>, magic: string)
    requires magic != Magic && Delim !in magic && Delim !in tag
    requires forall i :: 0 <= i < |params| ==> Delim !in params[i]
    ensures ParseRequestLine(Join([magic, tag] + params, Delim)) == NoRequest
  {
    SplitJoin([magic, tag] + params, Delim);
  }

  // ---------------------------------------------------------------------
  // The magic check the server relies on
  // ---------------------------------------------------------------------

  /**
   * As written, a line with a wrong magic is reported as the default
   * request with validMagic still true, so the server's invalid-magic
   * branch can never fire.
   */
  lemma WrongMagicNotFlagged()
    ensures Split("XXXXX|REQ_LOGIN|bob", Delim)[0] != Magic
    ensures ParseRequestLine("XXXXX|REQ_LOGIN|bob").validMagic
  {
    var fields := ["XXXXX", "REQ_LOGIN", "bob"];
    assert Join(fields[2..], Delim) == "bob";
    assert Join(fields[1..], Delim) == "REQ_LOGIN|bob";
    assert Join(fields, Delim) == "XXXXX|REQ_LOGIN|bob";
    SplitJoin(fields, Delim);
  }

  /**
   * The parser with the magic check reported: validMagic is false exactly
   * when field 0 is not the magic; everything else as ParseRequestLine.
   */
  function ParseRequestLineChecked(line: string): (r: Request)
    ensures r.validMagic <==> Split(line, Delim)[0] == Magic
    ensures r.validMagic ==> r == ParseRequestLine(line)
    ensures !r.validMagic ==> r.kind == Unknown && r.params == []
  {
    var parts := Split(line, Delim);
    if parts[0] != Magic then NoRequest.(validMagic := false)
    else ParseRequestLine(line)
  }

  /** The corrected parser flags the line that the one as written lets through. */
  lemma CheckedParserFlagsWrongMagic()
    ensures !ParseRequestLineChecked("XXXXX|REQ_LOGIN|bob").validMagic
  {
    WrongMagicNotFlagged();
  }

  /** ... and still accepts every line that carries the magic. */
  lemma CheckedParserAcceptsMagic(tag: string, params: seq<string>)
    requires Delim !in tag
    requires forall i :: 0 <= i < |params| ==> Delim !in params[i]
    ensures ParseRequestLineChecked(RequestLine(tag, params)).validMagic
  {
    var fields := [Magic, tag] + params;
    SplitJoin(fields, Delim);
    assert Split(Join(fields, Delim), Delim)[0] == Magic;
  }
}
