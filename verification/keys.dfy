/** API keys: each known key may take part in a limited number of games at the same
    time. The key map counts the remaining uses of every key. */
module Keys {

  /** Uses a key gets when it is loaded. */
  const NumberAllowedGames: int := 1

  datatype KeyStatus = KeyOK | KeyRateLimit | KeyInvalid

  /** The numeric values of the three answers, in declaration order. */
  function StatusCode(s: KeyStatus): (r: int)
    ensures 0 <= r <= 2
  {
    match s
    case KeyOK => 0
    case KeyRateLimit => 1
    case KeyInvalid => 2
  }

  /** The three answers have distinct codes. */
  lemma StatusCodesDistinct()
    ensures forall s, t :: StatusCode(s) == StatusCode(t) ==> s == t
  {
  }

  type KeyMap = map<string, int>

  /** A line of the key file that names a key: neither empty nor a comment. */
  predicate IsKeyLine(line: string)
  {
    |line| != 0 && line[0] != '#'
  }

  /** Loads the lines of the key file into the map; every key line gets
      NumberAllowedGames uses, other lines are skipped. */
  function InitKeys(m: KeyMap, lines: seq<string>): (r: KeyMap)
    ensures forall k :: k in r <==> k in m || (IsKeyLine(k) && k in lines)
    ensures forall k :: k in r && IsKeyLine(k) && k in lines ==> r[k] == NumberAllowedGames
    ensures forall k :: k in r && !(IsKeyLine(k) && k in lines) ==> r[k] == m[k]
    decreases |lines|
  {
    if |lines| == 0 then m
    else
      var text := lines[0];
      var m' := if IsKeyLine(text) then m[text := NumberAllowedGames] else m;
      InitKeys(m', lines[1..])
  }

  /** Claims one use of a key. Only a KeyOK answer changes the map. */
  function ClaimKey(m: KeyMap, key: string): (r: (KeyMap, KeyStatus))
    ensures r.1 == KeyInvalid <==> key == "" || key !in m
    ensures r.1 == KeyRateLimit <==> key != "" && key in m && m[key] == 0
    ensures r.1 != KeyOK ==> r.0 == m
    ensures r.1 == KeyOK ==> key in m && r.0 == m[key := m[key] - 1]
  {
    if key == "" then (m, KeyInvalid)
    else if key !in m then (m, KeyInvalid)
    else if m[key] == 0 then (m, KeyRateLimit)
    else (m[key := m[key] - 1], KeyOK)
  }

  /** Gives one use of a known key back; "" and unknown keys are ignored. */
  function ReleaseKey(m: KeyMap, key: string): (r: KeyMap)
    ensures key == "" || key !in m ==> r == m
    ensures key != "" && key in m ==> r == m[key := m[key] + 1]
  {
    if key == "" then m
    else if key !in m then m
    else m[key := m[key] + 1]
  }

  /** No key has a negative number of remaining uses. */
  predicate NonNegative(m: KeyMap)
  {
    forall k :: k in m ==> m[k] >= 0
  }

  /** Loading, claiming and releasing never drive a count below zero. */
  lemma CountsStayNonNegative(m: KeyMap, lines: seq<string>, key: string)
    requires NonNegative(m)
    ensures NonNegative(InitKeys(m, lines))
    ensures NonNegative(ClaimKey(m, key).0)
    ensures NonNegative(ReleaseKey(m, key))
  {
    var r := InitKeys(m, lines);
    forall k | k in r ensures r[k] >= 0 {
      if !(IsKeyLine(k) && k in lines) {
        assert r[k] == m[k];
      }
    }
  }

  /** A successful claim followed by the release of the same key restores the map. */
  lemma ClaimThenRelease(m: KeyMap, key: string)
    requires ClaimKey(m, key).1 == KeyOK
    ensures ReleaseKey(ClaimKey(m, key).0, key) == m
  {
    var m' := ClaimKey(m, key).0;
    assert m'[key := m'[key] + 1] == m;
  }

  /** A release of a known key followed by a claim of it succeeds and restores the map. */
  lemma ReleaseThenClaim(m: KeyMap, key: string)
    requires NonNegative(m) && key != "" && key in m
    ensures ClaimKey(ReleaseKey(m, key), key) == (m, KeyOK)
  {
    var m' := ReleaseKey(m, key);
    assert m'[key := m'[key] - 1] == m;
  }
}
