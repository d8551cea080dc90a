/** The pseudonym dictionary: every API key and every AI pool key is shown under a
    pseudonym of three words joined by '-', created on first use and replaced for all
    keys at once when the pseudonyms are rotated. */
module Pseudonym {

  /** The words pseudonyms are made of, in source order, kept in groups of eight so
      that facts about them can be checked group by group. */
  const Words0: seq<string> := [
    "Abbild", "Abbrecher", "Abendhimmel", "Anschluss",
    "Befehlswort", "Beginn", "Buchsbaum", "Butterteig"]
  const Words1: seq<string> := [
    "Crêpe", "Cookie", "Computer", "Christenheit",
    "Dampflokomotive", "Dekor", "Diskette", "Düsenantrieb"]
  const Words2: seq<string> := [
    "Evakuierung", "Exil", "Extrem", "Effekt",
    "Fragenkreis", "Frachtbrief", "Forschung", "Flügel"]
  const Words3: seq<string> := [
    "Gehirn", "Geldfälschung", "Gemeinschaftsangelegenheiten", "Germanistenkongress",
    "Herz", "Heizöl", "Hochwasser", "Holunderbaum"]
  const Words4: seq<string> := [
    "Ingenieur", "Informationsverarbeitungsprozess", "Implementierungsdetail", "Isomorphismus",
    "Jazz", "Jugend", "Jahrgang", "Jachtklub"]
  const Words5: seq<string> := [
    "Kernfusion", "Keyboard", "Kabel", "Klagebegründung",
    "Lilie", "Lied", "Lichtgeschwindigkeit", "Legitimität"]
  const Words6: seq<string> := [
    "Mittelmeer", "Modell", "Motiv", "Musik",
    "Nummerncode", "Nussknacker", "Norm", "Neuwagen"]
  const Words7: seq<string> := [
    "Orientteppich", "Orgelklang", "Omnibus", "Optik",
    "Paket", "Phosphor", "Panik", "Papierfetzen"]
  const Words8: seq<string> := [
    "Qualifikation", "Quellcode", "Quadratwurzel", "Qualm",
    "Radar", "Raddampfer", "Reisegeschwindigkeit", "Rekordflug"]
  const Words9: seq<string> := [
    "Sicherung", "Schienennetz", "Schadensersatzforderung", "Schwefel",
    "Transaktion", "Taxi", "Testfall", "Troll"]
  const Words10: seq<string> := [
    "Urteil", "Upload", "Untersuchungsausschuss", "Ultraschall",
    "Veranlassung", "Vergnügung", "Verkehr", "Vorteil"]
  const Words11: seq<string> := [
    "Wachhund", "Wagenabteil", "Walnuss", "Wasserfahrzeug",
    "XML", "Xylofon", "X", "Xenolith"]
  const Words12: seq<string> := [
    "Yeti", "Yoga", "Ysop", "Yack",
    "Zahlenspiel", "Zeilennummer", "Zeppelin", "Zentimeter"]
  const Wordlist: seq<string> :=
    Words0 + Words1 + Words2 + Words3 + Words4 + Words5 + Words6 +
    Words7 + Words8 + Words9 + Words10 + Words11 + Words12

  /** Indices of the three words of a pseudonym: the three rand.Intn(len(wordlist)) draws. */
  datatype Draw = Draw(first: int, second: int, third: int)

  predicate ValidDraw(d: Draw)
  {
    0 <= d.first < |Wordlist| && 0 <= d.second < |Wordlist| && 0 <= d.third < |Wordlist|
  }

  predicate NoDash(w: string)
  {
    '-' !in w
  }

  /** Every entry is a non-empty word without '-'. */
  predicate AllWords(ws: seq<string>)
  {
    forall i :: 0 <= i < |ws| ==> |ws[i]| > 0 && NoDash(ws[i])
  }

  lemma ConcatWords(a: seq<string>, b: seq<string>)
    requires AllWords(a) && AllWords(b)
    ensures AllWords(a + b)
  {
  }

  lemma Words0Facts()
    ensures AllWords(Words0)
  {
  }

  lemma Words1Facts()
    ensures AllWords(Words1)
  {
  }

  lemma Words2Facts()
    ensures AllWords(Words2)
  {
  }

  lemma Words3Facts()
    ensures AllWords(Words3)
  {
  }

  lemma Words4Facts()
    ensures AllWords(Words4)
  {
  }

  lemma Words5Facts()
    ensures AllWords(Words5)
  {
  }

  lemma Words6Facts()
    ensures AllWords(Words6)
  {
  }

  lemma Words7Facts()
    ensures AllWords(Words7)
  {
  }

  lemma Words8Facts()
    ensures AllWords(Words8)
  {
  }

  lemma Words9Facts()
    ensures AllWords(Words9)
  {
  }

  lemma Words10Facts()
    ensures AllWords(Words10)
  {
  }

  lemma Words11Facts()
    ensures AllWords(Words11)
  {
  }

  lemma Words12Facts()
    ensures AllWords(Words12)
  {
  }


  lemma WordlistFacts()
    ensures |Wordlist| == 104
    ensures AllWords(Wordlist)
  {
    Words0Facts();
    Words1Facts();
    ConcatWords(Words0, Words1);
    Words2Facts();
    ConcatWords(Words0 + Words1, Words2);
    Words3Facts();
    ConcatWords(Words0 + Words1 + Words2, Words3);
    Words4Facts();
    ConcatWords(Words0 + Words1 + Words2 + Words3, Words4);
    Words5Facts();
    ConcatWords(Words0 + Words1 + Words2 + Words3 + Words4, Words5);
    Words6Facts();
    ConcatWords(Words0 + Words1 + Words2 + Words3 + Words4 + Words5, Words6);
    Words7Facts();
    ConcatWords(Words0 + Words1 + Words2 + Words3 + Words4 + Words5 + Words6, Words7);
    Words8Facts();
    ConcatWords(Words0 + Words1 + Words2 + Words3 + Words4 + Words5 + Words6 + Words7, Words8);
    Words9Facts();
    ConcatWords(Words0 + Words1 + Words2 + Words3 + Words4 + Words5 + Words6 + Words7 + Words8, Words9);
    Words10Facts();
    ConcatWords(Words0 + Words1 + Words2 + Words3 + Words4 + Words5 + Words6 + Words7 + Words8 + Words9, Words10);
    Words11Facts();
    ConcatWords(Words0 + Words1 + Words2 + Words3 + Words4 + Words5 + Words6 + Words7 + Words8 + Words9 + Words10, Words11);
    Words12Facts();
    ConcatWords(Words0 + Words1 + Words2 + Words3 + Words4 + Words5 + Words6 + Words7 + Words8 + Words9 + Words10 + Words11, Words12);
  }

  /** The three drawn words joined by '-'. */
  function NewPseudonym(d: Draw): (r: string)
    requires ValidDraw(d)
    ensures |r| >= 5
  {
    WordlistFacts();
    Wordlist[d.first] + "-" + Wordlist[d.second] + "-" + Wordlist[d.third]
  }

  /** Splits a string at every '-' (strings.Split with separator "-"). */
  function SplitDash(s: string): (r: seq<string>)
    ensures |r| >= 1
    ensures forall i :: 0 <= i < |r| ==> NoDash(r[i])
    decreases |s|
  {
    if |s| == 0 then [""]
    else
      var rest := SplitDash(s[1..]);
      if s[0] == '-' then [""] + rest
      else [[s[0]] + rest[0]] + rest[1..]
  }

  /** Splitting a dash-free word followed by '-' yields the word and the split of the rest. */
  lemma {:induction false} SplitWord(w: string, rest: string)
    requires NoDash(w)
    ensures SplitDash(w + "-" + rest) == [w] + SplitDash(rest)
    ensures SplitDash(w) == [w]
    decreases |w|
  {
    if |w| == 0 {
      assert w + "-" + rest == ['-'] + rest;
      assert (['-'] + rest)[1..] == rest;
    } else {
      SplitWord(w[1..], rest);
      assert (w + "-" + rest)[1..] == w[1..] + "-" + rest;
      assert [w[0]] + w[1..] == w;
    }
  }

  /** A pseudonym in the generated format: exactly three wordlist words between dashes. */
  predicate IsPseudonym(s: string)
  {
    var parts := SplitDash(s);
    |parts| == 3 && forall i :: 0 <= i < 3 ==> parts[i] in Wordlist
  }

  /** Three dash-free words joined by '-' split back into those words. */
  lemma SplitThree(a: string, b: string, c: string)
    requires NoDash(a) && NoDash(b) && NoDash(c)
    ensures SplitDash(a + "-" + b + "-" + c) == [a, b, c]
  {
    assert a + "-" + b + "-" + c == a + "-" + (b + "-" + c);
    SplitWord(a, b + "-" + c);
    SplitWord(b, c);
    SplitWord(c, "");
  }

  /** Splitting a new pseudonym at '-' recovers the three drawn words. */
  lemma SplitNewPseudonym(d: Draw)
    requires ValidDraw(d)
    ensures SplitDash(NewPseudonym(d)) == [Wordlist[d.first], Wordlist[d.second], Wordlist[d.third]]
    ensures IsPseudonym(NewPseudonym(d))
  {
    WordlistFacts();
    var a, b, c := Wordlist[d.first], Wordlist[d.second], Wordlist[d.third];
    SplitThree(a, b, c);
    var parts := SplitDash(NewPseudonym(d));
    assert parts == [a, b, c];
    assert parts[0] in Wordlist && parts[1] in Wordlist && parts[2] in Wordlist;
  }

  type Dict = map<string, string>

  /** The pseudonym of a key; a missing key gets the freshly drawn pseudonym, which is stored. */
  function Get(dict: Dict, key: string, draw: Draw): (r: (Dict, string))
    requires ValidDraw(draw)
    ensures key in dict ==> r == (dict, dict[key])
    ensures key !in dict ==> r.0 == dict[key := NewPseudonym(draw)] && r.1 == NewPseudonym(draw)
    ensures key in r.0 && r.0[key] == r.1
  {
    if key in dict then (dict, dict[key])
    else
      var v := NewPseudonym(draw);
      (dict[key := v], v)
  }

  /** Get is idempotent: asking again for the same key returns the same pseudonym and
      leaves the dictionary alone, whatever the second draw. */
  lemma GetIdempotent(dict: Dict, key: string, d1: Draw, d2: Draw)
    requires ValidDraw(d1) && ValidDraw(d2)
    ensures var (dict', v) := Get(dict, key, d1);
            Get(dict', key, d2) == (dict', v)
  {
  }

  /** Get adds at most the asked key and changes no other entry. */
  lemma GetOnlyAddsKey(dict: Dict, key: string, d: Draw)
    requires ValidDraw(d)
    ensures Get(dict, key, d).0.Keys == dict.Keys + {key}
    ensures forall k :: k in dict ==> Get(dict, key, d).0[k] == dict[k]
  {
  }

  /** Every value of the dictionary is a pseudonym in the generated format. */
  predicate AllPseudonyms(dict: Dict)
  {
    forall k :: k in dict ==> IsPseudonym(dict[k])
  }

  lemma GetKeepsFormat(dict: Dict, key: string, d: Draw)
    requires ValidDraw(d) && AllPseudonyms(dict)
    ensures AllPseudonyms(Get(dict, key, d).0) && IsPseudonym(Get(dict, key, d).1)
  {
    SplitNewPseudonym(d);
  }

  /** The three words a draw picks. */
  function DrawnWords(d: Draw): seq<string>
    requires ValidDraw(d)
  {
    [Wordlist[d.first], Wordlist[d.second], Wordlist[d.third]]
  }

  /** The rotation step: every key gets a newly drawn pseudonym, made of the words of
      its own draw. */
  function Rotate(dict: Dict, draws: map<string, Draw>): (r: Dict)
    requires forall k :: k in dict ==> k in draws && ValidDraw(draws[k])
    ensures r.Keys == dict.Keys
    ensures AllPseudonyms(r)
    ensures forall k :: k in dict ==> SplitDash(r[k]) == DrawnWords(draws[k])
  {
    var r := map k | k in dict :: NewPseudonym(draws[k]);
    forall k | k in dict ensures IsPseudonym(r[k]) && SplitDash(r[k]) == DrawnWords(draws[k]) {
      assert r[k] == NewPseudonym(draws[k]);
      SplitNewPseudonym(draws[k]);
    }
    r
  }
}
