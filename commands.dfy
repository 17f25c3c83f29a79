/** The verb switch of the Redis front end: upper-casing of the verb and the
    reply chosen for each supported command. */
module Commands {

  /** A reply as the connection writes it. The handler only ever writes bulk
      strings and errors. */
  datatype Reply = Bulk(text: string) | Error(text: string)

  /** The outcome of the select that a GET blocks on: the server's context was
      cancelled first, or the consumer delivered a message. */
  datatype WaitResult = Shutdown | Msg(payload: string)

  /** Upper-casing of one rune, restricted to what can matter when the result
      is compared with an ASCII verb: ASCII letters, and the two non-ASCII runes
      whose upper case is an ASCII letter (dotless i and long s). Every other
      rune is left as it is; its real upper case is never an ASCII letter. */
  function UpperChar(c: char): char {
    if 'a' <= c <= 'z' then (c as int - 32) as char
    else if c == '\U{131}' then 'I'
    else if c == '\U{17F}' then 'S'
    else c
  }

  /** Upper-casing of a verb, rune by rune. It agrees with Go's strings.ToUpper
      wherever the result is compared with an ASCII command name; it is not a
      full Unicode upper-casing (a rune such as 'é' is left as it is). */
  function Upper(s: string): (r: string)
    ensures |r| == |s|
    ensures forall i :: 0 <= i < |s| ==> r[i] == UpperChar(s[i])
  {
    if s == [] then [] else [UpperChar(s[0])] + Upper(s[1..])
  }

  /** `c` is a spelling of the upper-case ASCII letter `l`: the letter itself,
      its lower case, or a non-ASCII rune that upper-cases onto it. */
  predicate Spells(c: char, l: char) {
    'A' <= l <= 'Z' &&
    (c == l || c as int == l as int + 32 || (l == 'I' && c == '\U{131}') || (l == 'S' && c == '\U{17F}'))
  }

  predicate IsAsciiUpper(v: string) {
    forall i :: 0 <= i < |v| ==> 'A' <= v[i] <= 'Z'
  }

  /** Case-insensitive match of a verb against an upper-case command name,
      stated letter by letter without reference to Upper. */
  predicate MatchesVerb(s: string, name: string) {
    |s| == |name| && forall i :: 0 <= i < |s| ==> Spells(s[i], name[i])
  }

  lemma UpperCharSpells(c: char, l: char)
    requires 'A' <= l <= 'Z'
    ensures UpperChar(c) == l <==> Spells(c, l)
  {
  }

  /** Upper-casing a verb yields the command name exactly when the verb is one
      of that name's case-insensitive spellings. */
  lemma UpperMatchesVerb(s: string, name: string)
    requires IsAsciiUpper(name)
    ensures Upper(s) == name <==> MatchesVerb(s, name)
  {
    var u := Upper(s);
    if |s| == |name| {
      forall i | 0 <= i < |s|
        ensures u[i] == name[i] <==> Spells(s[i], name[i])
      {
        UpperCharSpells(s[i], name[i]);
      }
      if MatchesVerb(s, name) {
        assert u == name;
      }
    }
  }

  /** The verb of a command: its first argument, or the empty string when the
      command has none. */
  function Verb(args: seq<string>): string {
    if |args| == 0 then "" else args[0]
  }

  /** The reply the handler writes for a decoded command, given what the GET
      select would yield. Only the verb, upper-cased, is inspected; GET is the
      only verb whose reply depends on the wait. */
  function Dispatch(args: seq<string>, wait: WaitResult): (r: Reply)
    ensures MatchesVerb(Verb(args), "PING") ==> r == Bulk("PONG")
    ensures MatchesVerb(Verb(args), "GET") ==>
              r == (if wait.Shutdown? then Error("SHUTDOWN") else Bulk(wait.payload))
    ensures MatchesVerb(Verb(args), "DEL") ==> r == Bulk("OK")
    ensures r == Error("Command not support") <==>
              !MatchesVerb(Verb(args), "PING") && !MatchesVerb(Verb(args), "GET") &&
              !MatchesVerb(Verb(args), "DEL")
    ensures |args| == 0 ==> r == Error("Command not support")
  {
    var verb := Verb(args);
    UpperMatchesVerb(verb, "PING");
    UpperMatchesVerb(verb, "GET");
    UpperMatchesVerb(verb, "DEL");
    match Upper(verb)
    case "PING" => Bulk("PONG")
    case "GET" => (match wait
                   case Shutdown => Error("SHUTDOWN")
                   case Msg(payload) => Bulk(payload))
    case "DEL" => Bulk("OK")
    case _ => Error("Command not support")
  }

  /** Whatever the case of its letters, a spelling of a command name gets the
      same reply as the name itself. */
  lemma DispatchIgnoresCase(args: seq<string>, name: string, rest: seq<string>, wait: WaitResult)
    requires |args| > 0 && IsAsciiUpper(name) && MatchesVerb(args[0], name)
    ensures Dispatch(args, wait) == Dispatch([name] + rest, wait)
  {
    UpperMatchesVerb(args[0], name);
    assert Verb([name] + rest) == name;
    UpperMatchesVerb(name, name);
  }
}
