/** The MIME decision tables of both servers and the response headers built from them. The magic-byte sniff
    (`filetype.guess`) and the extension guess (`mimetypes.guess_type`) are inputs: their own tables are not part
    of this model. Python's truth test on a string is modelled as "present and not empty". */
module Mime {
  import opened Common

  /** `mimetypes.guess_type(path)`: a type and an encoding, each possibly `None`. */
  datatype Guess = Guess(mime: Option<string>, encoding: Option<string>)

  /** The extension guesser, keyed by the path string. */
  type Guesser = string -> Guess

  /** A string that Python treats as true: present and not empty. */
  predicate Truthy(s: Option<string>)
  {
    s.Some? && s.value != ""
  }

  /** `guess_mime_type` of the Tornado server: the sniffed type if sniffing succeeded; otherwise the guessed
      type, turned into 'application/gzip' for a gzip encoding and into 'application/octet-stream' for any
      other encoding or when nothing was guessed. */
  function GuessMimeType(sniffed: Option<string>, guess: Guess): (r: string)
    ensures sniffed.Some? ==> r == sniffed.value
    ensures sniffed.None? && Truthy(guess.mime) && guess.encoding == Some("gzip") ==> r == "application/gzip"
    ensures sniffed.None? && Truthy(guess.mime) && guess.encoding.Some? && guess.encoding != Some("gzip") ==>
      r == "application/octet-stream"
    ensures sniffed.None? && Truthy(guess.mime) && guess.encoding.None? ==> r == guess.mime.value
    ensures sniffed.None? && !Truthy(guess.mime) ==> r == "application/octet-stream"
  {
    if sniffed.Some? then sniffed.value
    else if Truthy(guess.mime) then
      if guess.encoding == Some("gzip") then "application/gzip"
      else if guess.encoding.Some? then "application/octet-stream"
      else guess.mime.value
    else "application/octet-stream"
  }

  /** The Tornado table always names a type: never an empty one, as long as a successful sniff names one. */
  lemma GuessMimeTypeNamed(sniffed: Option<string>, guess: Guess)
    requires sniffed.Some? ==> sniffed.value != ""
    ensures GuessMimeType(sniffed, guess) != ""
  {
  }

  /** `guess_type` of the Pyramid server (the same table appears inline in the tutorial view): the sniffed type
      with no encoding; when the sniff fails or reports 'text/text', the extension guess as it is; when that
      has no type either, ('text/text', None). */
  function GuessType(sniffed: Option<string>, guess: Guess): (r: Guess)
    ensures Truthy(r.mime)
  {
    var first := if sniffed.Some? then Guess(sniffed, None) else Guess(Some("text/text"), None);
    var second := if first.mime == Some("text/text") then guess else first;
    if !Truthy(second.mime) then Guess(Some("text/text"), None) else second
  }

  /** The four rows of the Pyramid table. */
  lemma GuessTypeTable(sniffed: Option<string>, guess: Guess)
    ensures Truthy(sniffed) && sniffed != Some("text/text") ==> GuessType(sniffed, guess) == Guess(sniffed, None)
    ensures (sniffed.None? || sniffed == Some("text/text")) && Truthy(guess.mime) ==> GuessType(sniffed, guess) == guess
    ensures (sniffed.None? || sniffed == Some("text/text")) && !Truthy(guess.mime) ==>
      GuessType(sniffed, guess) == Guess(Some("text/text"), None)
    ensures GuessType(sniffed, guess).encoding.Some? ==> GuessType(sniffed, guess) == guess
  {
  }

  /** A type the sniffer names that is empty falls back to the default, encoding dropped. */
  lemma GuessTypeEmptySniff(guess: Guess)
    ensures GuessType(Some(""), guess) == Guess(Some("text/text"), None)
  {
  }

  /** The headers of the Pyramid tutorial views: the content type alone, or, when an encoding was guessed, the
      encoding alone, the content type being dropped. */
  function HeaderList(g: Guess): (r: seq<Header>)
    requires Truthy(g.mime)
    ensures |r| == 1
    ensures Truthy(g.encoding) <==> r[0].0 == "Content-Encoding"
    ensures Truthy(g.encoding) ==> r == [("Content-Encoding", g.encoding.value)]
    ensures !Truthy(g.encoding) ==> r == [("Content-Type", g.mime.value)]
  {
    if Truthy(g.encoding) then [("Content-Encoding", g.encoding.value)] else [("Content-Type", g.mime.value)]
  }

  /** `prefix[:-len(appPrefix)]`: the URL prefix without its last `|appPrefix|` characters, empty when that is
      all of it or more, and also empty when `appPrefix` is empty, since `[:-0]` is `[:0]`. */
  function UrlPrefix(prefix: string, appPrefix: string): (r: string)
    ensures appPrefix == "" ==> r == ""
    ensures appPrefix != "" && |appPrefix| <= |prefix| ==> r == prefix[..|prefix| - |appPrefix|]
    ensures |appPrefix| > |prefix| ==> r == ""
  {
    if appPrefix == "" || |appPrefix| > |prefix| then "" else prefix[..|prefix| - |appPrefix|]
  }

  /** A prefix that ends with the application prefix loses exactly that ending. */
  lemma UrlPrefixStrips(base: string, appPrefix: string)
    requires appPrefix != ""
    ensures UrlPrefix(base + appPrefix, appPrefix) == base
  {
    assert (base + appPrefix)[..|base|] == base;
  }

  /** The headers of the gated content view: the URL prefix and the content type, in that order, or, when an
      encoding was guessed, the encoding alone. */
  function ContentHeaderList(prefix: string, appPrefix: string, g: Guess): (r: seq<Header>)
    requires Truthy(g.mime)
    ensures Truthy(g.encoding) ==> r == [("Content-Encoding", g.encoding.value)]
    ensures !Truthy(g.encoding) ==>
      |r| == 2 && r[0] == ("X-URL-Prefix", UrlPrefix(prefix, appPrefix)) && r[1] == ("Content-Type", g.mime.value)
  {
    if Truthy(g.encoding) then [("Content-Encoding", g.encoding.value)]
    else [("X-URL-Prefix", UrlPrefix(prefix, appPrefix)), ("Content-Type", g.mime.value)]
  }
}
