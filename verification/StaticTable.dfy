/**
  The static table (Appendix A of RFC 9204), with the two searches over it: three
  separate tables in the source, proved here to agree.
 */
module StaticTable {
  import opened Words
  import Utf8

  // ---- The table ----

  const ROW0: seq<(string, string)> := [
    (":authority", ""),
    (":path", "/"),
    ("age", "0"),
    ("content-disposition", ""),
    ("content-length", "0"),
    ("cookie", ""),
    ("date", ""),
    ("etag", ""),
    ("if-modified-since", ""),
    ("if-none-match", "")]

  const ROW10: seq<(string, string)> := [
    ("last-modified", ""),
    ("link", ""),
    ("location", ""),
    ("referer", ""),
    ("set-cookie", ""),
    (":method", "CONNECT"),
    (":method", "DELETE"),
    (":method", "GET"),
    (":method", "HEAD"),
    (":method", "OPTIONS")]

  const ROW20: seq<(string, string)> := [
    (":method", "POST"),
    (":method", "PUT"),
    (":scheme", "http"),
    (":scheme", "https"),
    (":status", "103"),
    (":status", "200"),
    (":status", "304"),
    (":status", "404"),
    (":status", "503"),
    ("accept", "*/*")]

  const ROW30: seq<(string, string)> := [
    ("accept", "application/dns-message"),
    ("accept-encoding", "gzip, deflate, br"),
    ("accept-ranges", "bytes"),
    ("access-control-allow-headers", "cache-control"),
    ("access-control-allow-headers", "content-type"),
    ("access-control-allow-origin", "*"),
    ("cache-control", "max-age=0"),
    ("cache-control", "max-age=2592000"),
    ("cache-control", "max-age=604800"),
    ("cache-control", "no-cache")]

  const ROW40: seq<(string, string)> := [
    ("cache-control", "no-store"),
    ("cache-control", "public, max-age=31536000"),
    ("content-encoding", "br"),
    ("content-encoding", "gzip"),
    ("content-type", "application/dns-message"),
    ("content-type", "application/javascript"),
    ("content-type", "application/json"),
    ("content-type", "application/x-www-form-urlencoded"),
    ("content-type", "image/gif"),
    ("content-type", "image/jpeg")]

  const ROW50: seq<(string, string)> := [
    ("content-type", "image/png"),
    ("content-type", "text/css"),
    ("content-type", "text/html; charset=utf-8"),
    ("content-type", "text/plain"),
    ("content-type", "text/plain;charset=utf-8"),
    ("range", "bytes=0-"),
    ("strict-transport-security", "max-age=31536000"),
    ("strict-transport-security", "max-age=31536000; includesubdomains"),
    ("strict-transport-security", "max-age=31536000; includesubdomains; preload"),
    ("vary", "accept-encoding")]

  const ROW60: seq<(string, string)> := [
    ("vary", "origin"),
    ("x-content-type-options", "nosniff"),
    ("x-xss-protection", "1; mode=block"),
    (":status", "100"),
    (":status", "204"),
    (":status", "206"),
    (":status", "302"),
    (":status", "400"),
    (":status", "403"),
    (":status", "421")]

  const ROW70: seq<(string, string)> := [
    (":status", "425"),
    (":status", "500"),
    ("accept-language", ""),
    ("access-control-allow-credentials", "FALSE"),
    ("access-control-allow-credentials", "TRUE"),
    ("access-control-allow-headers", "*"),
    ("access-control-allow-methods", "get"),
    ("access-control-allow-methods", "get, post, options"),
    ("access-control-allow-methods", "options"),
    ("access-control-expose-headers", "content-length")]

  const ROW80: seq<(string, string)> := [
    ("access-control-request-headers", "content-type"),
    ("access-control-request-method", "get"),
    ("access-control-request-method", "post"),
    ("alt-svc", "clear"),
    ("authorization", ""),
    ("content-security-policy", "script-src 'none'; object-src 'none'; base-uri 'none'"),
    ("early-data", "1"),
    ("expect-ct", ""),
    ("forwarded", ""),
    ("if-range", "")]

  const ROW90: seq<(string, string)> := [
    ("origin", ""),
    ("purpose", "prefetch"),
    ("server", ""),
    ("timing-allow-origin", "*"),
    ("upgrade-insecure-requests", "1"),
    ("user-agent", ""),
    ("x-forwarded-for", ""),
    ("x-frame-options", "deny"),
    ("x-frame-options", "sameorigin")]

  const SIZE: nat := 99

  /** The constant array, ten entries at a time. */
  function Entry(i: nat): (string, string)
    requires i < SIZE
  {
    if i < 10 then ROW0[i - 0]
    else if i < 20 then ROW10[i - 10]
    else if i < 30 then ROW20[i - 20]
    else if i < 40 then ROW30[i - 30]
    else if i < 50 then ROW40[i - 40]
    else if i < 60 then ROW50[i - 50]
    else if i < 70 then ROW60[i - 60]
    else if i < 80 then ROW70[i - 70]
    else if i < 90 then ROW80[i - 80]
    else ROW90[i - 90]
  }

  // ---- The searches ----

  function Find0(name: string, value: string): Option<nat> {
    match (name, value)
    case (":authority", "") => Some(0)
    case (":path", "/") => Some(1)
    case ("age", "0") => Some(2)
    case ("content-disposition", "") => Some(3)
    case ("content-length", "0") => Some(4)
    case ("cookie", "") => Some(5)
    case ("date", "") => Some(6)
    case ("etag", "") => Some(7)
    case ("if-modified-since", "") => Some(8)
    case ("if-none-match", "") => Some(9)
    case ("last-modified", "") => Some(10)
    case ("link", "") => Some(11)
    case ("location", "") => Some(12)
    case ("referer", "") => Some(13)
    case ("set-cookie", "") => Some(14)
    case (":method", "CONNECT") => Some(15)
    case (":method", "DELETE") => Some(16)
    case (":method", "GET") => Some(17)
    case (":method", "HEAD") => Some(18)
    case (":method", "OPTIONS") => Some(19)
    case (":method", "POST") => Some(20)
    case (":method", "PUT") => Some(21)
    case (":scheme", "http") => Some(22)
    case (":scheme", "https") => Some(23)
    case (":status", "103") => Some(24)
    case _ => None
  }

  function Find25(name: string, value: string): Option<nat> {
    match (name, value)
    case (":status", "200") => Some(25)
    case (":status", "304") => Some(26)
    case (":status", "404") => Some(27)
    case (":status", "503") => Some(28)
    case ("accept", "*/*") => Some(29)
    case ("accept", "application/dns-message") => Some(30)
    case ("accept-encoding", "gzip, deflate, br") => Some(31)
    case ("accept-ranges", "bytes") => Some(32)
    case ("access-control-allow-headers", "cache-control") => Some(33)
    case ("access-control-allow-headers", "content-type") => Some(34)
    case ("access-control-allow-origin", "*") => Some(35)
    case ("cache-control", "max-age=0") => Some(36)
    case ("cache-control", "max-age=2592000") => Some(37)
    case ("cache-control", "max-age=604800") => Some(38)
    case ("cache-control", "no-cache") => Some(39)
    case ("cache-control", "no-store") => Some(40)
    case ("cache-control", "public, max-age=31536000") => Some(41)
    case ("content-encoding", "br") => Some(42)
    case ("content-encoding", "gzip") => Some(43)
    case ("content-type", "application/dns-message") => Some(44)
    case ("content-type", "application/javascript") => Some(45)
    case ("content-type", "application/json") => Some(46)
    case ("content-type", "application/x-www-form-urlencoded") => Some(47)
    case ("content-type", "image/gif") => Some(48)
    case ("content-type", "image/jpeg") => Some(49)
    case _ => None
  }

  function Find50(name: string, value: string): Option<nat> {
    match (name, value)
    case ("content-type", "image/png") => Some(50)
    case ("content-type", "text/css") => Some(51)
    case ("content-type", "text/html; charset=utf-8") => Some(52)
    case ("content-type", "text/plain") => Some(53)
    case ("content-type", "text/plain;charset=utf-8") => Some(54)
    case ("range", "bytes=0-") => Some(55)
    case ("strict-transport-security", "max-age=31536000") => Some(56)
    case ("strict-transport-security", "max-age=31536000; includesubdomains") => Some(57)
    case ("strict-transport-security", "max-age=31536000; includesubdomains; preload") => Some(58)
    case ("vary", "accept-encoding") => Some(59)
    case ("vary", "origin") => Some(60)
    case ("x-content-type-options", "nosniff") => Some(61)
    case ("x-xss-protection", "1; mode=block") => Some(62)
    case (":status", "100") => Some(63)
    case (":status", "204") => Some(64)
    case (":status", "206") => Some(65)
    case (":status", "302") => Some(66)
    case (":status", "400") => Some(67)
    case (":status", "403") => Some(68)
    case (":status", "421") => Some(69)
    case (":status", "425") => Some(70)
    case (":status", "500") => Some(71)
    case ("accept-language", "") => Some(72)
    case ("access-control-allow-credentials", "FALSE") => Some(73)
    case ("access-control-allow-credentials", "TRUE") => Some(74)
    case _ => None
  }

  function Find75(name: string, value: string): Option<nat> {
    match (name, value)
    case ("access-control-allow-headers", "*") => Some(75)
    case ("access-control-allow-methods", "get") => Some(76)
    case ("access-control-allow-methods", "get, post, options") => Some(77)
    case ("access-control-allow-methods", "options") => Some(78)
    case ("access-control-expose-headers", "content-length") => Some(79)
    case ("access-control-request-headers", "content-type") => Some(80)
    case ("access-control-request-method", "get") => Some(81)
    case ("access-control-request-method", "post") => Some(82)
    case ("alt-svc", "clear") => Some(83)
    case ("authorization", "") => Some(84)
    case ("content-security-policy", "script-src 'none'; object-src 'none'; base-uri 'none'") => Some(85)
    case ("early-data", "1") => Some(86)
    case ("expect-ct", "") => Some(87)
    case ("forwarded", "") => Some(88)
    case ("if-range", "") => Some(89)
    case ("origin", "") => Some(90)
    case ("purpose", "prefetch") => Some(91)
    case ("server", "") => Some(92)
    case ("timing-allow-origin", "*") => Some(93)
    case ("upgrade-insecure-requests", "1") => Some(94)
    case ("user-agent", "") => Some(95)
    case ("x-forwarded-for", "") => Some(96)
    case ("x-frame-options", "deny") => Some(97)
    case ("x-frame-options", "sameorigin") => Some(98)
    case _ => None
  }

  function FindName0(name: string): Option<nat> {
    match name
    case ":authority" => Some(0)
    case ":path" => Some(1)
    case "age" => Some(2)
    case "content-disposition" => Some(3)
    case "content-length" => Some(4)
    case "cookie" => Some(5)
    case "date" => Some(6)
    case "etag" => Some(7)
    case "if-modified-since" => Some(8)
    case "if-none-match" => Some(9)
    case "last-modified" => Some(10)
    case "link" => Some(11)
    case "location" => Some(12)
    case "referer" => Some(13)
    case "set-cookie" => Some(14)
    case ":method" => Some(15)
    case ":scheme" => Some(22)
    case ":status" => Some(24)
    case _ => None
  }

  function FindName18(name: string): Option<nat> {
    match name
    case "accept" => Some(29)
    case "accept-encoding" => Some(31)
    case "accept-ranges" => Some(32)
    case "access-control-allow-headers" => Some(33)
    case "access-control-allow-origin" => Some(35)
    case "cache-control" => Some(36)
    case "content-encoding" => Some(42)
    case "content-type" => Some(44)
    case "range" => Some(55)
    case "strict-transport-security" => Some(56)
    case "vary" => Some(59)
    case "x-content-type-options" => Some(61)
    case "x-xss-protection" => Some(62)
    case "accept-language" => Some(72)
    case "access-control-allow-credentials" => Some(73)
    case "access-control-allow-methods" => Some(76)
    case "access-control-expose-headers" => Some(79)
    case "access-control-request-headers" => Some(80)
    case _ => None
  }

  function FindName36(name: string): Option<nat> {
    match name
    case "access-control-request-method" => Some(81)
    case "alt-svc" => Some(83)
    case "authorization" => Some(84)
    case "content-security-policy" => Some(85)
    case "early-data" => Some(86)
    case "expect-ct" => Some(87)
    case "forwarded" => Some(88)
    case "if-range" => Some(89)
    case "origin" => Some(90)
    case "purpose" => Some(91)
    case "server" => Some(92)
    case "timing-allow-origin" => Some(93)
    case "upgrade-insecure-requests" => Some(94)
    case "user-agent" => Some(95)
    case "x-forwarded-for" => Some(96)
    case "x-frame-options" => Some(97)
    case _ => None
  }

  function OrElse(first: Option<nat>, second: Option<nat>): Option<nat> {
    if first.Some? then first else second
  }

  /** The arms of the match on a name and a value, in order. */
  function Find(name: string, value: string): Option<nat> {
    OrElse(Find0(name, value), OrElse(Find25(name, value), OrElse(Find50(name, value), Find75(name, value))))
  }

  /** The arms of the match on a name, in order. */
  function FindName(name: string): Option<nat> {
    OrElse(FindName0(name), OrElse(FindName18(name), FindName36(name)))
  }

  // ---- The searches agree with the table ----

  lemma FoundRow0(i: nat)
    requires 0 <= i < 10
    ensures Find(Entry(i).0, Entry(i).1) == Some(i)
  {
  }

  lemma FoundRow10(i: nat)
    requires 10 <= i < 20
    ensures Find(Entry(i).0, Entry(i).1) == Some(i)
  {
  }

  lemma FoundRow20(i: nat)
    requires 20 <= i < 30
    ensures Find(Entry(i).0, Entry(i).1) == Some(i)
  {
  }

  lemma FoundRow30(i: nat)
    requires 30 <= i < 40
    ensures Find(Entry(i).0, Entry(i).1) == Some(i)
  {
  }

  lemma FoundRow40(i: nat)
    requires 40 <= i < 50
    ensures Find(Entry(i).0, Entry(i).1) == Some(i)
  {
  }

  lemma FoundRow50(i: nat)
    requires 50 <= i < 60
    ensures Find(Entry(i).0, Entry(i).1) == Some(i)
  {
  }

  lemma FoundRow60(i: nat)
    requires 60 <= i < 70
    ensures Find(Entry(i).0, Entry(i).1) == Some(i)
  {
  }

  lemma FoundRow70(i: nat)
    requires 70 <= i < 80
    ensures Find(Entry(i).0, Entry(i).1) == Some(i)
  {
  }

  lemma FoundRow80(i: nat)
    requires 80 <= i < 90
    ensures Find(Entry(i).0, Entry(i).1) == Some(i)
  {
  }

  lemma FoundRow90(i: nat)
    requires 90 <= i < 99
    ensures Find(Entry(i).0, Entry(i).1) == Some(i)
  {
  }

  lemma FindsEntry(i: nat)
    requires i < SIZE
    ensures Find(Entry(i).0, Entry(i).1) == Some(i)
  {
    hide Find, Entry;
    if i < 10 {
      FoundRow0(i);
    } else if i < 20 {
      FoundRow10(i);
    } else if i < 30 {
      FoundRow20(i);
    } else if i < 40 {
      FoundRow30(i);
    } else if i < 50 {
      FoundRow40(i);
    } else if i < 60 {
      FoundRow50(i);
    } else if i < 70 {
      FoundRow60(i);
    } else if i < 80 {
      FoundRow70(i);
    } else if i < 90 {
      FoundRow80(i);
    } else {
      FoundRow90(i);
    }
  }

  lemma Find0IsEntry(name: string, value: string)
    ensures var r := Find0(name, value); r.Some? ==> r.value < SIZE && Entry(r.value) == (name, value)
  {
  }

  lemma Find25IsEntry(name: string, value: string)
    ensures var r := Find25(name, value); r.Some? ==> r.value < SIZE && Entry(r.value) == (name, value)
  {
  }

  lemma Find50IsEntry(name: string, value: string)
    ensures var r := Find50(name, value); r.Some? ==> r.value < SIZE && Entry(r.value) == (name, value)
  {
  }

  lemma Find75IsEntry(name: string, value: string)
    ensures var r := Find75(name, value); r.Some? ==> r.value < SIZE && Entry(r.value) == (name, value)
  {
  }

  lemma FindName0IsEntry(name: string)
    ensures var r := FindName0(name); r.Some? ==> r.value < SIZE && Entry(r.value).0 == name
  {
  }

  lemma FindName18IsEntry(name: string)
    ensures var r := FindName18(name); r.Some? ==> r.value < SIZE && Entry(r.value).0 == name
  {
  }

  lemma FindName36IsEntry(name: string)
    ensures var r := FindName36(name); r.Some? ==> r.value < SIZE && Entry(r.value).0 == name
  {
  }

  lemma NamedRow0(i: nat)
    requires 0 <= i < 10
    ensures var r := FindName(Entry(i).0); r.Some? && r.value <= i
  {
  }

  lemma NamedRow10(i: nat)
    requires 10 <= i < 20
    ensures var r := FindName(Entry(i).0); r.Some? && r.value <= i
  {
  }

  lemma NamedRow20(i: nat)
    requires 20 <= i < 30
    ensures var r := FindName(Entry(i).0); r.Some? && r.value <= i
  {
  }

  lemma NamedRow30(i: nat)
    requires 30 <= i < 40
    ensures var r := FindName(Entry(i).0); r.Some? && r.value <= i
  {
  }

  lemma NamedRow40(i: nat)
    requires 40 <= i < 50
    ensures var r := FindName(Entry(i).0); r.Some? && r.value <= i
  {
  }

  lemma NamedRow50(i: nat)
    requires 50 <= i < 60
    ensures var r := FindName(Entry(i).0); r.Some? && r.value <= i
  {
  }

  lemma NamedRow60(i: nat)
    requires 60 <= i < 70
    ensures var r := FindName(Entry(i).0); r.Some? && r.value <= i
  {
  }

  lemma NamedRow70(i: nat)
    requires 70 <= i < 80
    ensures var r := FindName(Entry(i).0); r.Some? && r.value <= i
  {
  }

  lemma NamedRow80(i: nat)
    requires 80 <= i < 90
    ensures var r := FindName(Entry(i).0); r.Some? && r.value <= i
  {
  }

  lemma NamedRow90(i: nat)
    requires 90 <= i < 99
    ensures var r := FindName(Entry(i).0); r.Some? && r.value <= i
  {
  }

  lemma NamesEntry(i: nat)
    requires i < SIZE
    ensures var r := FindName(Entry(i).0); r.Some? && r.value <= i
  {
    hide FindName, Entry;
    if i < 10 {
      NamedRow0(i);
    } else if i < 20 {
      NamedRow10(i);
    } else if i < 30 {
      NamedRow20(i);
    } else if i < 40 {
      NamedRow30(i);
    } else if i < 50 {
      NamedRow40(i);
    } else if i < 60 {
      NamedRow50(i);
    } else if i < 70 {
      NamedRow60(i);
    } else if i < 80 {
      NamedRow70(i);
    } else if i < 90 {
      NamedRow80(i);
    } else {
      NamedRow90(i);
    }
  }

  /** A name and a value are found at exactly the entry that is that pair. */
  lemma FindExact(name: string, value: string, i: nat)
    ensures Find(name, value) == Some(i) <==> i < SIZE && Entry(i) == (name, value)
  {
    hide Entry, Find0, Find25, Find50, Find75;
    Find0IsEntry(name, value);
    Find25IsEntry(name, value);
    Find50IsEntry(name, value);
    Find75IsEntry(name, value);
    if i < SIZE {
      FindsEntry(i);
    }
  }

  /** A name is found at exactly its first entry. */
  lemma FindNameExact(name: string, i: nat)
    ensures FindName(name) == Some(i) <==>
            i < SIZE && Entry(i).0 == name && forall j :: 0 <= j < i ==> Entry(j).0 != name
  {
    hide Entry, FindName0, FindName18, FindName36;
    FindName0IsEntry(name);
    FindName18IsEntry(name);
    FindName36IsEntry(name);
    forall j | 0 <= j < SIZE && Entry(j).0 == name
      ensures FindName(name).Some? && FindName(name).value <= j
    {
      NamesEntry(j);
    }
  }

  // ---- Strings as their bytes ----

  function Text(s: seq<byte>): (t: string)
    ensures |t| == |s|
  {
    seq(|s|, i requires 0 <= i < |s| => s[i] as char)
  }

  /** One byte a character: every character of the table is ASCII. */
  function Bytes(t: string): (s: seq<byte>)
    ensures |s| == |t|
  {
    seq(|t|, i requires 0 <= i < |t| => t[i] as int % 256)
  }

  lemma BytesOfText(s: seq<byte>)
    ensures Bytes(Text(s)) == s
  {
  }

  function Get(index: nat): (r: Option<(seq<byte>, seq<byte>)>)
    ensures r.Some? <==> index < SIZE
  {
    if index < SIZE then Some((Bytes(Entry(index).0), Bytes(Entry(index).1))) else None
  }

  /** What the encoder replaces by an index, the decoder puts back. */
  lemma GetOfFind(name: seq<byte>, value: seq<byte>)
    ensures var r := Find(Text(name), Text(value));
            r.Some? ==> r.value < SIZE && Get(r.value) == Some((name, value))
    ensures var r := FindName(Text(name));
            r.Some? ==> r.value < SIZE && Get(r.value).value.0 == name
  {
    hide Entry, Find, FindName, Text;
    BytesOfText(name);
    BytesOfText(value);
    if Find(Text(name), Text(value)).Some? {
      FindExact(Text(name), Text(value), Find(Text(name), Text(value)).value);
    }
    if FindName(Text(name)).Some? {
      FindNameExact(Text(name), FindName(Text(name)).value);
    }
  }

  // ---- The table is text ----

  predicate Ascii(t: string) {
    forall k :: 0 <= k < |t| ==> t[k] < 128 as char
  }

  const SUBDOMAINS := "max-age=31536000; includesubdomains"
  const PRELOAD := "max-age=31536000; includesubdomains; preload"
  const POLICY := "script-src 'none'; object-src 'none'; base-uri 'none'"

  // The longest values go in two steps each.

  lemma AsciiSubdomains()
    ensures Ascii(SUBDOMAINS)
  {
    var front := "max-age=31536000; ";
    forall k | 0 <= k < |SUBDOMAINS| ensures SUBDOMAINS[k] < 128 as char {
      if k < |front| {
        assert SUBDOMAINS[k] == front[k];
      }
    }
  }

  lemma AsciiPreload()
    ensures Ascii(PRELOAD)
  {
    AsciiSubdomains();
    forall k | 0 <= k < |PRELOAD| ensures PRELOAD[k] < 128 as char {
      if k < |SUBDOMAINS| {
        assert PRELOAD[k] == SUBDOMAINS[k];
      }
    }
  }

  lemma AsciiPolicy()
    ensures Ascii(POLICY)
  {
    var front := "script-src 'none'; object-src";
    forall k | 0 <= k < |POLICY| ensures POLICY[k] < 128 as char {
      if k < |front| {
        assert POLICY[k] == front[k];
      }
    }
  }

  lemma AsciiFrom0()
    ensures forall i :: 0 <= i < 5 ==> Ascii(ROW0[i].0) && Ascii(ROW0[i].1)
  {
  }

  lemma AsciiFrom5()
    ensures forall i :: 5 <= i < 10 ==> Ascii(ROW0[i].0) && Ascii(ROW0[i].1)
  {
  }

  lemma AsciiFrom10()
    ensures forall i :: 0 <= i < 10 ==> Ascii(ROW10[i].0) && Ascii(ROW10[i].1)
  {
  }

  lemma AsciiFrom20()
    ensures forall i :: 0 <= i < 10 ==> Ascii(ROW20[i].0) && Ascii(ROW20[i].1)
  {
  }

  lemma AsciiFrom30()
    ensures forall i :: 0 <= i < 3 ==> Ascii(ROW30[i].0) && Ascii(ROW30[i].1)
  {
  }

  lemma AsciiFrom33()
    ensures forall i :: 3 <= i < 6 ==> Ascii(ROW30[i].0) && Ascii(ROW30[i].1)
  {
  }

  lemma AsciiFrom36()
    ensures forall i :: 6 <= i < 8 ==> Ascii(ROW30[i].0) && Ascii(ROW30[i].1)
  {
  }

  lemma AsciiFrom38()
    ensures forall i :: 8 <= i < 10 ==> Ascii(ROW30[i].0) && Ascii(ROW30[i].1)
  {
  }

  lemma AsciiFrom40()
    ensures forall i :: 0 <= i < 3 ==> Ascii(ROW40[i].0) && Ascii(ROW40[i].1)
  {
  }

  lemma AsciiFrom43()
    ensures forall i :: 3 <= i < 6 ==> Ascii(ROW40[i].0) && Ascii(ROW40[i].1)
  {
  }

  lemma AsciiFrom46()
    ensures forall i :: 6 <= i < 8 ==> Ascii(ROW40[i].0) && Ascii(ROW40[i].1)
  {
  }

  lemma AsciiFrom48()
    ensures forall i :: 8 <= i < 10 ==> Ascii(ROW40[i].0) && Ascii(ROW40[i].1)
  {
  }

  lemma AsciiFrom50()
    ensures forall i :: 0 <= i < 3 ==> Ascii(ROW50[i].0) && Ascii(ROW50[i].1)
  {
  }

  lemma AsciiFrom53()
    ensures forall i :: 3 <= i < 6 ==> Ascii(ROW50[i].0) && Ascii(ROW50[i].1)
  {
  }

  lemma AsciiFrom56()
    ensures forall i :: 6 <= i < 10 ==> Ascii(ROW50[i].0) && Ascii(ROW50[i].1)
  {
    AsciiSubdomains();
    AsciiPreload();
  }

  lemma AsciiFrom60()
    ensures forall i :: 0 <= i < 5 ==> Ascii(ROW60[i].0) && Ascii(ROW60[i].1)
  {
  }

  lemma AsciiFrom65()
    ensures forall i :: 5 <= i < 10 ==> Ascii(ROW60[i].0) && Ascii(ROW60[i].1)
  {
  }

  lemma AsciiFrom70()
    ensures forall i :: 0 <= i < 3 ==> Ascii(ROW70[i].0) && Ascii(ROW70[i].1)
  {
  }

  lemma AsciiFrom73()
    ensures forall i :: 3 <= i < 6 ==> Ascii(ROW70[i].0) && Ascii(ROW70[i].1)
  {
  }

  lemma AsciiFrom76()
    ensures forall i :: 6 <= i < 8 ==> Ascii(ROW70[i].0) && Ascii(ROW70[i].1)
  {
  }

  lemma AsciiFrom78()
    ensures forall i :: 8 <= i < 10 ==> Ascii(ROW70[i].0) && Ascii(ROW70[i].1)
  {
  }

  lemma AsciiFrom80()
    ensures forall i :: 0 <= i < 3 ==> Ascii(ROW80[i].0) && Ascii(ROW80[i].1)
  {
  }

  lemma AsciiFrom83()
    ensures forall i :: 3 <= i < 6 ==> Ascii(ROW80[i].0) && Ascii(ROW80[i].1)
  {
    AsciiPolicy();
  }

  lemma AsciiFrom86()
    ensures forall i :: 6 <= i < 10 ==> Ascii(ROW80[i].0) && Ascii(ROW80[i].1)
  {
  }

  lemma AsciiFrom90()
    ensures forall i :: 0 <= i < 5 ==> Ascii(ROW90[i].0) && Ascii(ROW90[i].1)
  {
  }

  lemma AsciiFrom95()
    ensures forall i :: 5 <= i < 9 ==> Ascii(ROW90[i].0) && Ascii(ROW90[i].1)
  {
  }

  lemma EntryIsAscii(i: nat)
    requires i < SIZE
    ensures Ascii(Entry(i).0) && Ascii(Entry(i).1)
  {
    hide Ascii;
    AsciiFrom0(); AsciiFrom5();
    AsciiFrom10();
    AsciiFrom20();
    AsciiFrom30(); AsciiFrom33(); AsciiFrom36(); AsciiFrom38();
    AsciiFrom40(); AsciiFrom43(); AsciiFrom46(); AsciiFrom48();
    AsciiFrom50(); AsciiFrom53(); AsciiFrom56();
    AsciiFrom60(); AsciiFrom65();
    AsciiFrom70(); AsciiFrom73(); AsciiFrom76(); AsciiFrom78();
    AsciiFrom80(); AsciiFrom83(); AsciiFrom86();
    AsciiFrom90(); AsciiFrom95();
  }

  /** The strings of the table are valid, as their type in the source says. */
  lemma GetIsText(index: nat)
    requires index < SIZE
    ensures var field := Get(index).value; Utf8.Valid(field.0) && Utf8.Valid(field.1)
  {
    hide Entry, Utf8.Valid;
    EntryIsAscii(index);
    Utf8.AsciiValid(Bytes(Entry(index).0));
    Utf8.AsciiValid(Bytes(Entry(index).1));
  }
}
