/**
 The names of the entities that are read, in the order of the character codes.
 */
module EntityNames {
  import opened Basics
  import opened Octets
  import opened EntityEscape
  import opened EscapeLaws

  /** The four characters of markup, and the letters of ISO 8859-1. */
  function NameOf(c: Byte): string {
    if c < 192 then Markup(c) else if c < 224 then Capital(c) else Small(c)
  }

  function Markup(c: Byte): string {
    match c
    case 34 => "quot" case 38 => "amp" case 60 => "lt" case 62 => "gt"
    case _ => ""
  }

  function Capital(c: Byte): string {
    match c
    case 192 => "Agrave" case 193 => "Aacute" case 194 => "Acirc" case 195 => "Atilde"
    case 196 => "Auml" case 197 => "Aring" case 198 => "AElig" case 199 => "Ccedil"
    case 200 => "Egrave" case 201 => "Eacute" case 202 => "Ecirc" case 203 => "Euml"
    case 204 => "Igrave" case 205 => "Iacute" case 206 => "Icirc" case 207 => "Iuml"
    case 208 => "ETH" case 209 => "Ntilde" case 210 => "Ograve" case 211 => "Oacute"
    case 212 => "Ocirc" case 213 => "Otilde" case 214 => "Ouml"
    case 216 => "Oslash" case 217 => "Ugrave" case 218 => "Uacute" case 219 => "Ucirc"
    case 220 => "Uuml" case 221 => "Yacute" case 222 => "THORN" case 223 => "szlig"
    case _ => ""
  }

  function Small(c: Byte): string {
    match c
    case 224 => "agrave" case 225 => "aacute" case 226 => "acirc" case 227 => "atilde"
    case 228 => "auml" case 229 => "aring" case 230 => "aelig" case 231 => "ccedil"
    case 232 => "egrave" case 233 => "eacute" case 234 => "ecirc" case 235 => "euml"
    case 236 => "igrave" case 237 => "iacute" case 238 => "icirc" case 239 => "iuml"
    case 240 => "eth" case 241 => "ntilde" case 242 => "ograve" case 243 => "oacute"
    case 244 => "ocirc" case 245 => "otilde" case 246 => "ouml"
    case 248 => "oslash" case 249 => "ugrave" case 250 => "uacute" case 251 => "ucirc"
    case 252 => "uuml" case 253 => "yacute" case 254 => "thorn" case 255 => "yuml"
    case _ => ""
  }

  // ---------- the tables ----------

  lemma Rows(length: nat, e: (string, Byte))
    requires e in Names(length)
    ensures e in Names(2) || e in Names(3) || e in Names(4)
      || e in CAPITALS_OF_FIVE || e in SMALL_OF_FIVE || e in CAPITALS_OF_SIX || e in SMALL_OF_SIX
  {
  }

  lemma Two(e: (string, Byte))
    requires e in Names(2)
    ensures NameOf(e.1) == e.0
  {
  }

  lemma Three(e: (string, Byte))
    requires e in Names(3)
    ensures NameOf(e.1) == e.0
  {
  }

  lemma Four(e: (string, Byte))
    requires e in Names(4)
    ensures NameOf(e.1) == e.0
  {
  }

  lemma FiveCapitals(e: (string, Byte))
    requires e in CAPITALS_OF_FIVE
    ensures NameOf(e.1) == e.0
  {
  }

  lemma FiveSmall(e: (string, Byte))
    requires e in SMALL_OF_FIVE
    ensures NameOf(e.1) == e.0
  {
  }

  lemma SixCapitals(e: (string, Byte))
    requires e in CAPITALS_OF_SIX
    ensures NameOf(e.1) == e.0
  {
  }

  lemma SixSmall(e: (string, Byte))
    requires e in SMALL_OF_SIX
    ensures NameOf(e.1) == e.0
  {
  }

  /** Every entry is the name of its character. */
  lemma Entry(length: nat, e: (string, Byte))
    requires e in Names(length)
    ensures NameOf(e.1) == e.0
  {
    hide *;
    Rows(length, e);
    if e in Names(2) {
      Two(e);
    } else if e in Names(3) {
      Three(e);
    } else if e in Names(4) {
      Four(e);
    } else if e in CAPITALS_OF_FIVE {
      FiveCapitals(e);
    } else if e in SMALL_OF_FIVE {
      FiveSmall(e);
    } else if e in CAPITALS_OF_SIX {
      SixCapitals(e);
    } else {
      SixSmall(e);
    }
  }

  lemma MarkupListed(c: Byte)
    requires Markup(c) != ""
    ensures (Markup(c), c) in Names(|Markup(c)|)
  {
  }

  lemma CapitalListed(c: Byte)
    requires Capital(c) != ""
    ensures (Capital(c), c) in Names(|Capital(c)|)
  {
  }

  lemma SmallListed(c: Byte)
    requires Small(c) != ""
    ensures (Small(c), c) in Names(|Small(c)|)
  {
  }

  lemma Listed(c: Byte)
    requires NameOf(c) != ""
    ensures (NameOf(c), c) in Names(|NameOf(c)|)
  {
    hide Markup, Capital, Small, Names;
    if c < 192 {
      MarkupListed(c);
    } else if c < 224 {
      CapitalListed(c);
    } else {
      SmallListed(c);
    }
  }

  lemma MarkupDistinct(c: Byte, d: Byte)
    requires c < 192 && NameOf(c) != "" && NameOf(c) == NameOf(d)
    ensures c == d
  {
  }

  lemma CapitalDistinct(c: Byte, d: Byte)
    requires 192 <= c < 224 <= d && NameOf(c) != ""
    ensures NameOf(c) != NameOf(d)
  {
  }

  lemma CapitalsDistinct(c: Byte, d: Byte)
    requires 192 <= c < 224 && 192 <= d < 224 && NameOf(c) != "" && NameOf(c) == NameOf(d)
    ensures c == d
  {
  }

  lemma SmallDistinct(c: Byte, d: Byte)
    requires c >= 224 && d >= 224 && NameOf(c) != "" && NameOf(c) == NameOf(d)
    ensures c == d
  {
  }

  /** No two characters share a name. */
  lemma Distinct(c: Byte, d: Byte)
    requires NameOf(c) != "" && NameOf(c) == NameOf(d)
    ensures c == d
  {
    hide NameOf;
    if c < 192 {
      MarkupDistinct(c, d);
    } else if d < 192 {
      MarkupDistinct(d, c);
    } else if c < 224 <= d {
      CapitalDistinct(c, d);
      assert false;
    } else if d < 224 <= c {
      CapitalDistinct(d, c);
      assert false;
    } else if c < 224 {
      CapitalsDistinct(c, d);
    } else {
      SmallDistinct(c, d);
    }
  }

  // ---------- the search ----------

  /** What is found is an entry with that name, and nothing only where there is none. */
  lemma {:induction false} Found(names: seq<(string, Byte)>, t: seq<Byte>)
    ensures var r := Lookup(names, t);
      if r.None? then forall e :: e in names ==> !Same(e.0, t) else exists e :: e in names && Same(e.0, t) && e.1 == r.value
  {
    hide Same;
    if names != [] && !Same(names[0].0, t) {
      Found(names[1..], t);
      assert forall e :: e in names <==> e == names[0] || e in names[1..];
    }
  }

  /** `t` spells the name of `c`. */
  predicate Named(t: seq<Byte>, c: Byte) {
    NameOf(c) != "" && |NameOf(c)| == |t| && forall k :: 0 <= k < |t| ==> NameOf(c)[k] as int == t[k]
  }

  lemma SameName(a: string, b: string, t: seq<Byte>)
    requires Same(a, t) && Same(b, t)
    ensures a == b && |a| == |t|
  {
  }

  lemma NamedIs(t: seq<Byte>, c: Byte)
    ensures Named(t, c) <==> NameOf(c) != "" && Same(NameOf(c), t)
  {
    hide NameOf;
  }

  lemma LookedUp(t: seq<Byte>)
    requires t != []
    ensures var r := Lookup(Names(|t|), t);
      if r.Some? then Named(t, r.value) && forall c :: Named(t, c) ==> c == r.value else forall c :: !Named(t, c)
  {
    hide Names, NameOf, Lookup, Same, Named;
    var names := Names(|t|);
    Found(names, t);
    var r := Lookup(names, t);
    if r.Some? {
      var e :| e in names && Same(e.0, t) && e.1 == r.value;
      Entry(|t|, e);
      SameName(e.0, e.0, t);
      NamedIs(t, r.value);
      forall c | Named(t, c)
        ensures c == r.value
      {
        NamedIs(t, c);
        SameName(NameOf(c), e.0, t);
        Distinct(c, r.value);
      }
    } else {
      forall c
        ensures !Named(t, c)
      {
        NamedIs(t, c);
        if Named(t, c) {
          SameName(NameOf(c), NameOf(c), t);
          Listed(c);
          assert false;
        }
      }
    }
  }

  lemma NameParts(t: seq<Byte>, u: seq<Byte>)
    requires t != [] && 59 !in t
    ensures var s, i := [38] + (t + ([59] + u)), 1 + |t|;
      s[0] == 38 && s[1] == t[0] && s[1..i] == t && s[i + 1..] == u && |s| > i && Semicolon(s, 1) == i
  {
    var s, i := [38] + (t + ([59] + u)), 1 + |t|;
    assert s[i] == 59 && forall k :: 1 <= k < i ==> s[k] == t[k - 1];
    SemicolonAt(s, 1, i);
  }

  lemma NameTaken(s: seq<Byte>, t: seq<Byte>)
    requires t != [] && t[0] != 35 && |s| > 1 + |t| && s[0] == 38 && s[1] == t[0]
    requires s[1..1 + |t|] == t && Semicolon(s, 1) == 1 + |t|
    ensures Take(s) == match Lookup(Names(|t|), t)
      case None => Taken([38], 1, false)
      case Some(c) => Taken([c], |t| + 2, true)
  {
    hide Names, Lookup, Semicolon, Number;
  }

  /** A name between `&` and a semicolon stands for its character; other names are left as they are. */
  lemma NameLaw(t: seq<Byte>, c: Byte, u: seq<Byte>)
    requires 59 !in t && t != [] && t[0] != 35
    ensures var s := [38] + (t + ([59] + u));
      && (Named(t, c) ==> ReadEntities(s) == ([c] + ReadEntities(u).0, true))
      && ((forall d :: !Named(t, d)) ==> ReadEntities(s) == ([38] + ReadEntities(s[1..]).0, ReadEntities(s[1..]).1))
  {
    hide *;
    var s := [38] + (t + ([59] + u));
    NameParts(t, u);
    NameTaken(s, t);
    LookedUp(t);
    EntitiesMore(Take(s).width, s);
  }
}
