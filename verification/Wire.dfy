/** The text messages between GTStore's clients and nodes. */
module Wire {
  import opened Options
  import opened Text

  type Values = seq<string>
  type Store = map<string, Values>

  /** `find(p) != npos`. */
  predicate Contains(s: string, p: string) {
    p <= s || (s != "" && Contains(s[1..], p))
  }

  // ----- encoding and decoding -------------------------------------------------------------------

  /** Every value followed by a space. */
  function Spaced(vs: Values): string {
    if vs == [] then "" else vs[0] + (" " + Spaced(vs[1..]))
  }

  function PutMessage(key: string, vs: Values): string {
    "PUT:" + (key + (" " + Spaced(vs)))
  }

  function GetMessage(key: string): string {
    "GET:" + key
  }

  /** The text after the first colon. */
  function Payload(msg: string): string {
    var i := Find(msg, ':');
    if i < |msg| then msg[i + 1..] else msg
  }

  /** Key and value list are separated by the first space; without one, both are the whole text. */
  function KeyOf(payload: string): string {
    payload[..Find(payload, ' ')]
  }

  function ValueTextOf(payload: string): string {
    var i := Find(payload, ' ');
    if i < |payload| then payload[i + 1..] else payload
  }

  function ReplicateMessage(key: string, valueText: string): string {
    "REPLICATE:" + (key + (" " + valueText))
  }

  function GetReply(key: string, vs: Values, nodeId: string): string {
    key + (", " + (Spaced(vs) + (", SERVER_" + nodeId)))
  }

  /** What a client makes of a reply to a get. */
  datatype Answer = Found(values: Values) | NotFound | Invalid

  function NonEmpty(vs: Values): Values {
    if vs == [] then [] else (if vs[0] == "" then [] else [vs[0]]) + NonEmpty(vs[1..])
  }

  /** The values stand between the first comma, skipping one character, and the second.  With the commas side by side
      the unsigned length wraps around and the text extends to the end. */
  function ReplyValueText(reply: string): (text: Option<string>) {
    var c := FindFrom(reply, ',', 0);
    if c >= |reply| then None
    else
      var d := FindFrom(reply, ',', c + 1);
      if d >= |reply| then None
      else Some(if d > c + 1 then reply[c + 2..d] else reply[c + 2..])
  }

  function DecodeReply(reply: string): Answer {
    if reply == "KEY_NOT_FOUND" then NotFound
    else match ReplyValueText(reply) case None => Invalid case Some(text) => Found(NonEmpty(Pieces(text, ' ')))
  }

  // ----- a storage node ----------------------------------------------------------------------------

  /** The store after a put or a replicate message with this payload. */
  function Stored(store: Store, payload: string): Store {
    store[KeyOf(payload) := Pieces(ValueTextOf(payload), ' ')]
  }

  class StorageNode {
    const nodeId: string
    var store: Store

    constructor (id: string)
      ensures nodeId == id && store == map[]
    {
      nodeId, store := id, map[];
    }

    /** `store_key_value`. */
    method StoreKeyValue(key: string, valueList: string)
      modifies this
      ensures store == old(store)[key := Pieces(valueList, ' ')]
    {
      var values := GetPieces(valueList, ' ');
      store := store[key := values];
    }

    /** The client side of `run`: the reply, and the message sent to every replica. */
    method HandleClient(msg: string) returns (reply: Option<string>, forward: Option<string>)
      modifies this
      ensures Contains(msg, "PUT:") ==>
                && store == Stored(old(store), Payload(msg))
                && reply == Some("OK, SERVER_" + nodeId)
                && forward == Some(ReplicateMessage(KeyOf(Payload(msg)), ValueTextOf(Payload(msg))))
      ensures !Contains(msg, "PUT:") ==> store == old(store) && forward == None
      ensures !Contains(msg, "PUT:") && Contains(msg, "GET:") ==>
                reply == Some(if Payload(msg) in store then GetReply(Payload(msg), store[Payload(msg)], nodeId)
                              else "KEY_NOT_FOUND")
      ensures !Contains(msg, "PUT:") && !Contains(msg, "GET:") ==> reply == None
    {
      if Contains(msg, "PUT:") {
        var keyValue := Payload(msg);
        var key, value := KeyOf(keyValue), ValueTextOf(keyValue);
        StoreKeyValue(key, value);
        return Some("OK, SERVER_" + nodeId), Some(ReplicateMessage(key, value));
      } else if Contains(msg, "GET:") {
        var key := Payload(msg);
        if key !in store {
          return Some("KEY_NOT_FOUND"), None;
        }
        var value := SpacedOut(store[key]);
        return Some(key + (", " + (value + (", SERVER_" + nodeId)))), None;
      } else {
        return None, None;
      }
    }

    /** The node side of `run`. */
    method HandleNode(msg: string)
      modifies this
      ensures store == if Contains(msg, "REPLICATE:") then Stored(old(store), Payload(msg)) else old(store)
    {
      if Contains(msg, "REPLICATE:") {
        var keyValue := Payload(msg);
        StoreKeyValue(KeyOf(keyValue), ValueTextOf(keyValue));
      }
    }
  }

  /** The printing loop of a put and of a reply. */
  method SpacedOut(vs: Values) returns (s: string)
    ensures s == Spaced(vs)
  {
    s := "";
    var i := 0;
    while i < |vs|
      invariant 0 <= i <= |vs|
      invariant s + Spaced(vs[i..]) == Spaced(vs)
    {
      Associate(s, vs[i] + " ", Spaced(vs[i + 1..]));
      Associate(vs[i], " ", Spaced(vs[i + 1..]));
      s := s + (vs[i] + " ");
      i := i + 1;
    }
  }

  // ----- round trips -------------------------------------------------------------------------------

  /** A key the messages can carry. */
  predicate GoodKey(key: string) {
    ' ' !in key && ',' !in key && !Contains(GetMessage(key), "PUT:")
  }

  predicate GoodValue(v: string) {
    v != "" && ' ' !in v && ',' !in v
  }

  predicate GoodValues(vs: Values) {
    forall i | 0 <= i < |vs| :: GoodValue(vs[i])
  }

  /** A key without a colon cannot turn a get into a put. */
  lemma ColonFreeKey(key: string)
    requires ' ' !in key && ',' !in key && ':' !in key
    ensures GoodKey(key)
  {
    WithoutColon(key);
    NotAPut(':', key);
    NotAPut('T', ":" + key);
    NotAPut('E', "T" + (":" + key));
    NotAPut('G', "E" + ("T" + (":" + key)));
    assert GetMessage(key) == "G" + ("E" + ("T" + (":" + key)));
  }

  lemma NotAPut(c: char, s: string)
    requires c != 'P' && !Contains(s, "PUT:")
    ensures !Contains([c] + s, "PUT:")
  {
    assert ([c] + s)[1..] == s;
    assert "PUT:"[0] == 'P' && ([c] + s)[0] == c;
  }

  lemma {:induction false} WithoutColon(s: string)
    requires ':' !in s
    ensures !Contains(s, "PUT:")
  {
    assert "PUT:"[3] == ':';
    if s != "" {
      WithoutColon(s[1..]);
    }
  }

  lemma FindPrefix(a: string, d: char, rest: string)
    requires d !in a
    ensures Find(a + ([d] + rest), d) == |a|
  {
    var s := a + ([d] + rest);
    assert s[|a|] == d;
    assert forall j | 0 <= j < |a| :: s[j] == a[j];
  }

  /** Key and value text of a put or replicate message. */
  lemma PayloadSplits(head: string, key: string, valueText: string)
    requires ':' !in head && ' ' !in key
    ensures var p := Payload(head + (":" + (key + (" " + valueText))));
            KeyOf(p) == key && ValueTextOf(p) == valueText
  {
    var p := key + (" " + valueText);
    var m := head + (":" + p);
    FindPrefix(head, ':', p);
    assert m[|head| + 1..] == p;
    FindPrefix(key, ' ', valueText);
    assert p[..|key|] == key && p[|key| + 1..] == valueText;
  }

  lemma PutParses(key: string, vs: Values)
    requires ' ' !in key
    ensures Contains(PutMessage(key, vs), "PUT:")
    ensures KeyOf(Payload(PutMessage(key, vs))) == key && ValueTextOf(Payload(PutMessage(key, vs))) == Spaced(vs)
  {
    var p := key + (" " + Spaced(vs));
    assert PutMessage(key, vs) == "PUT" + (":" + p);
    assert "PUT:" <= PutMessage(key, vs);
    PayloadSplits("PUT", key, Spaced(vs));
  }

  lemma ReplicateParses(key: string, valueText: string)
    requires ' ' !in key
    ensures Contains(ReplicateMessage(key, valueText), "REPLICATE:")
    ensures KeyOf(Payload(ReplicateMessage(key, valueText))) == key
    ensures ValueTextOf(Payload(ReplicateMessage(key, valueText))) == valueText
  {
    var p := key + (" " + valueText);
    assert ReplicateMessage(key, valueText) == "REPLICATE" + (":" + p);
    assert "REPLICATE:" <= ReplicateMessage(key, valueText);
    PayloadSplits("REPLICATE", key, valueText);
  }

  /** A put stores the same values at the primary and, through its forwarded message, at every replica. */
  lemma ReplicasStoreTheSame(key: string, vs: Values, primary: Store, replica: Store)
    requires ' ' !in key
    ensures var p := Payload(PutMessage(key, vs));
            && Stored(primary, p) == primary[key := Pieces(Spaced(vs), ' ')]
            && Stored(replica, Payload(ReplicateMessage(KeyOf(p), ValueTextOf(p)))) ==
               replica[key := Pieces(Spaced(vs), ' ')]
  {
    PutParses(key, vs);
    ReplicateParses(key, Spaced(vs));
  }

  lemma {:induction false} PiecesOfSpaced(vs: Values)
    requires forall i | 0 <= i < |vs| :: ' ' !in vs[i]
    ensures Pieces(Spaced(vs), ' ') == vs
  {
    if vs != [] {
      PiecesOfSpaced(vs[1..]);
      PiecesSplit(vs[0], ' ', Spaced(vs[1..]));
      assert [vs[0]] + vs[1..] == vs;
    }
  }

  lemma {:induction false} NonEmptyKeeps(vs: Values)
    requires forall i | 0 <= i < |vs| :: vs[i] != ""
    ensures NonEmpty(vs) == vs
  {
    if vs != [] {
      NonEmptyKeeps(vs[1..]);
      assert [vs[0]] + vs[1..] == vs;
    }
  }

  lemma {:induction false} SpacedWithoutComma(vs: Values)
    requires forall i | 0 <= i < |vs| :: ',' !in vs[i]
    ensures ',' !in Spaced(vs)
  {
    if vs != [] {
      SpacedWithoutComma(vs[1..]);
    }
  }

  lemma {:induction false} PiecesWithoutDelimiter(s: string, d: char, i: nat)
    requires i < |Pieces(s, d)|
    ensures d !in Pieces(s, d)[i]
    ensures forall c | c in Pieces(s, d)[i] :: c in s
    decreases |s|
  {
    var k := Find(s, d);
    if i > 0 {
      PiecesWithoutDelimiter(s[k + 1..], d, i - 1);
    }
  }

  lemma {:induction false} NonEmptyFrom(vs: Values, i: nat)
    requires i < |NonEmpty(vs)|
    ensures NonEmpty(vs)[i] != "" && NonEmpty(vs)[i] in vs
  {
    if vs[0] == "" {
      NonEmptyFrom(vs[1..], i);
    } else if i > 0 {
      NonEmptyFrom(vs[1..], i - 1);
    }
  }

  lemma NotMissing(reply: string, i: nat)
    requires i < |reply| && reply[i] == ','
    ensures reply != "KEY_NOT_FOUND"
  {
    assert ',' !in "KEY_NOT_FOUND";
  }

  /** The text between the first two commas, at `c` and `d`, less one character. */
  lemma TextBetween(reply: string, c: nat, d: nat)
    requires c + 1 < d < |reply| && reply[c] == ',' && reply[d] == ','
    requires forall j | 0 <= j < d && j != c :: reply[j] != ','
    ensures ReplyValueText(reply) == Some(reply[c + 2..d])
  {
  }

  /** A reply whose second field extends to the next comma. */
  lemma ReplyFields(key: string, rest: string)
    requires ',' !in key && ',' in rest
    ensures ReplyValueText(key + ("," + (" " + rest))) == Some(rest[..Find(rest, ',')])
  {
    var reply, n, k := key + ("," + (" " + rest)), |key|, Find(rest, ',');
    assert forall j | 0 <= j < n :: reply[j] == key[j];
    assert reply[n] == ',' && reply[n + 1] == ' ';
    assert forall j | n + 2 <= j < |reply| :: reply[j] == rest[j - n - 2];
    TextBetween(reply, n, n + 2 + k);
    assert reply[n + 2..n + 2 + k] == rest[..k];
  }

  lemma DecodeText(reply: string)
    requires ReplyValueText(reply).Some?
    ensures DecodeReply(reply) == Found(NonEmpty(Pieces(ReplyValueText(reply).value, ' ')))
  {
    NotMissing(reply, FindFrom(reply, ',', 0));
  }

  /** The value text a client cuts out of a node's reply. */
  lemma ReplyText(key: string, vs: Values, nodeId: string) returns (text: string)
    requires ',' !in key
    ensures DecodeReply(GetReply(key, vs, nodeId)) == Found(NonEmpty(Pieces(text, ' ')))
    ensures ',' !in text
    ensures ',' !in Spaced(vs) ==> text == Spaced(vs)
  {
    var rest := Spaced(vs) + ("," + (" SERVER_" + nodeId));
    assert ", SERVER_" + nodeId == "," + (" SERVER_" + nodeId);
    assert ", " + rest == "," + (" " + rest);
    assert rest[|Spaced(vs)|] == ',';
    ReplyFields(key, rest);
    DecodeText(key + ("," + (" " + rest)));
    text := rest[..Find(rest, ',')];
    if ',' !in Spaced(vs) {
      FindPrefix(Spaced(vs), ',', " SERVER_" + nodeId);
      assert text == Spaced(vs);
    }
  }

  /** What a client reads back after its put, at any node that stored it. */
  function ReadBack(key: string, vs: Values, nodeId: string): Answer {
    DecodeReply(GetReply(key, Pieces(Spaced(vs), ' '), nodeId))
  }

  /** Under a key without a comma, a value list survives the put, the replication and the get exactly if its values are
      nonempty and free of spaces and commas. */
  lemma RoundTripIff(key: string, vs: Values, nodeId: string)
    requires ',' !in key
    ensures ReadBack(key, vs, nodeId) == Found(vs) <==> GoodValues(vs)
  {
    var stored := Pieces(Spaced(vs), ' ');
    var text := ReplyText(key, stored, nodeId);
    if GoodValues(vs) {
      PiecesOfSpaced(vs);
      SpacedWithoutComma(vs);
      NonEmptyKeeps(vs);
    }
    if ReadBack(key, vs, nodeId) == Found(vs) {
      forall i | 0 <= i < |vs| ensures GoodValue(vs[i]) {
        NonEmptyFrom(Pieces(text, ' '), i);
        var j :| 0 <= j < |Pieces(text, ' ')| && Pieces(text, ' ')[j] == vs[i];
        PiecesWithoutDelimiter(text, ' ', j);
      }
    }
  }

  /** A get message is one, and asks for exactly its key. */
  lemma GetParses(key: string)
    ensures Contains(GetMessage(key), "GET:")
    ensures Payload(GetMessage(key)) == key
  {
    assert GetMessage(key) == "GET" + (":" + key);
    assert "GET:" <= GetMessage(key);
    FindPrefix("GET", ':', key);
    assert GetMessage(key)[4..] == key;
  }

  // ----- which keys the messages can carry ---------------------------------------------------------

  /** What a client's get returns at a node with this store: a key that makes the message look like a put is answered
      like one. */
  function AnswerTo(store: Store, key: string, nodeId: string): Answer {
    if Contains(GetMessage(key), "PUT:") then DecodeReply("OK, SERVER_" + nodeId)
    else if key in store then DecodeReply(GetReply(key, store[key], nodeId))
    else DecodeReply("KEY_NOT_FOUND")
  }

  /** A put and a get of the same key. */
  function Exchange(store: Store, key: string, vs: Values, nodeId: string): Answer {
    AnswerTo(Stored(store, Payload(PutMessage(key, vs))), key, nodeId)
  }

  /** What every store keeps: no key in it has a space. */
  predicate KeysWithoutSpace(store: Store) {
    forall k | k in store :: ' ' !in k
  }

  lemma StoredKeysWithoutSpace(store: Store, payload: string)
    requires KeysWithoutSpace(store)
    ensures KeysWithoutSpace(Stored(store, payload))
  {
    assert ' ' !in KeyOf(payload);
  }

  lemma PutIsAPut(key: string, vs: Values)
    ensures Contains(PutMessage(key, vs), "PUT:")
    ensures ' ' in Payload(PutMessage(key, vs))
  {
    var p := key + (" " + Spaced(vs));
    assert PutMessage(key, vs) == "PUT" + (":" + p);
    assert "PUT:" <= PutMessage(key, vs);
    FindPrefix("PUT", ':', p);
    assert PutMessage(key, vs)[4..] == p && p[|key|] == ' ';
  }

  /** Whatever the key, the forwarded message stores at a replica what the put stored at the primary. */
  lemma ForwardedStoresTheSame(replica: Store, payload: string)
    requires ' ' in payload
    ensures var m := ReplicateMessage(KeyOf(payload), ValueTextOf(payload));
            Contains(m, "REPLICATE:") && Stored(replica, Payload(m)) == Stored(replica, payload)
  {
    ReplicateParses(KeyOf(payload), ValueTextOf(payload));
  }

  lemma FindInPrefix(s: string, t: string, d: char, from: nat)
    requires from <= |s| && FindFrom(s, d, from) < |s|
    ensures FindFrom(s + t, d, from) == FindFrom(s, d, from)
  {
    var i, k := FindFrom(s, d, from), FindFrom(s + t, d, from);
    assert (s + t)[i] == d;
    assert forall j | from <= j < i :: (s + t)[j] == s[j];
  }

  /** The first two commas of a key with a comma, counting the one behind it. */
  lemma CommasOf(key: string)
    requires ',' in key
    ensures FindFrom(key + ",", ',', 0) < |key|
    ensures FindFrom(key + ",", ',', FindFrom(key + ",", ',', 0) + 1) <= |key|
  {
    var s := key + ",";
    var k :| 0 <= k < |key| && key[k] == ',';
    assert s[k] == ',' && s[|key|] == ',';
  }

  /** A key with a comma: the client cuts the value text at these two. */
  lemma CommaKeyText(key: string, t: string)
    requires ',' in key
    ensures var s := key + ",";
            var c := FindFrom(s, ',', 0);
            && c < |key|
            && var d := FindFrom(s, ',', c + 1);
               d < |s| && ReplyValueText(s + t) == Some(if d > c + 1 then s[c + 2..d] else (s + t)[c + 2..])
  {
    var s := key + ",";
    CommasOf(key);
    var c := FindFrom(s, ',', 0);
    var d := FindFrom(s, ',', c + 1);
    FindInPrefix(s, t, ',', 0);
    FindInPrefix(s, t, ',', c + 1);
    TakePrefix(s, t, d);
  }

  lemma TakePrefix(s: string, t: string, d: nat)
    requires d <= |s|
    ensures forall c | 0 <= c <= d :: (s + t)[c..d] == s[c..d]
  {}

  lemma {:induction false} PiecesKeep(text: string, d: char, p: nat) returns (i: nat)
    requires p < |text| && text[p] != d
    ensures i < |Pieces(text, d)| && text[p] in Pieces(text, d)[i]
    decreases |text|
  {
    var k := Find(text, d);
    if p < k {
      i := 0;
      assert text[..k][p] == text[p];
    } else {
      var rest := text[k + 1..];
      assert rest[p - k - 1] == text[p];
      var j := PiecesKeep(rest, d, p - k - 1);
      i := j + 1;
      assert Pieces(text, d) == [text[..k]] + Pieces(rest, d);
    }
  }

  lemma {:induction false} NonEmptyHas(vs: Values, i: nat)
    requires i < |vs| && vs[i] != ""
    ensures vs[i] in NonEmpty(vs)
  {
    if i > 0 {
      NonEmptyHas(vs[1..], i - 1);
    }
  }

  /** A comma in the value text ends up in a value. */
  lemma CommaSurvives(text: string, p: nat)
    requires p < |text| && text[p] == ','
    ensures !GoodValues(NonEmpty(Pieces(text, ' ')))
  {
    var i := PiecesKeep(text, ' ', p);
    NonEmptyHas(Pieces(text, ' '), i);
    var vs := NonEmpty(Pieces(text, ' '));
    var j :| 0 <= j < |vs| && vs[j] == Pieces(text, ' ')[i];
    assert !GoodValue(vs[j]);
  }

  lemma GetReplySplits(key: string, vs: Values, nodeId: string) returns (t: string, p: nat)
    ensures GetReply(key, vs, nodeId) == (key + ",") + t && p < |t| && t[p] == ','
  {
    t, p := " " + (Spaced(vs) + (", SERVER_" + nodeId)), 1 + |Spaced(vs)|;
    assert t[p] == ',';
    assert ", " + (Spaced(vs) + (", SERVER_" + nodeId)) == "," + t;
    Associate(key, ",", t);
  }

  /** What a client takes from a key with two commas apart, counting the one behind the key. */
  function TextInKey(key: string): Option<string>
    requires ',' in key
  {
    CommaKeyText(key, "");
    var s := key + ",";
    var c := FindFrom(s, ',', 0);
    var d := FindFrom(s, ',', c + 1);
    if d > c + 1 then Some(s[c + 2..d]) else None
  }

  lemma CommaInTail(s: string, t: string, c: nat, p: nat)
    requires c <= |s| && p < |t| && t[p] == ','
    ensures !GoodValues(NonEmpty(Pieces((s + t)[c..], ' ')))
  {
    assert (s + t)[c..][|s| - c + p] == ',';
    CommaSurvives((s + t)[c..], |s| - c + p);
  }

  lemma CommaKeyAnswer(key: string, t: string, p: nat)
    requires ',' in key && p < |t| && t[p] == ','
    ensures match TextInKey(key)
            case Some(text) => DecodeReply(key + "," + t) == Found(NonEmpty(Pieces(text, ' ')))
            case None => DecodeReply(key + "," + t).Found? && !GoodValues(DecodeReply(key + "," + t).values)
  {
    CommaKeyText(key, t);
    DecodeText(key + "," + t);
    CommaInTail(key + ",", t, FindFrom(key + ",", ',', 0) + 2, p);
  }

  /** Under a key with a comma the answer is not a good value list, or does not depend on what is stored. */
  lemma CommaKeyAnswers(key: string, vs: Values, us: Values, nodeId: string)
    requires ',' in key
    ensures var answer := DecodeReply(GetReply(key, vs, nodeId));
            (answer.Found? && !GoodValues(answer.values)) || answer == DecodeReply(GetReply(key, us, nodeId))
  {
    var t, p := GetReplySplits(key, vs, nodeId);
    var t', p' := GetReplySplits(key, us, nodeId);
    CommaKeyAnswer(key, t, p);
    CommaKeyAnswer(key, t', p');
  }

  lemma AcknowledgementIsNoAnswer(nodeId: string)
    requires ',' !in nodeId
    ensures DecodeReply("OK, SERVER_" + nodeId) == Invalid
  {
    var reply := "OK, SERVER_" + nodeId;
    assert reply[0] == 'O' && reply[1] == 'K' && reply[2] == ',';
    assert ',' !in " SERVER_";
    assert reply[3..] == " SERVER_" + nodeId;
    assert forall j | 3 <= j < |reply| :: reply[j] == reply[3..][j - 3];
  }

  /** Whether a put and a get agree on good values is decided by the key: they do for every such list exactly if the key
      has no space and no comma and does not make the get look like a put. */
  lemma KeyRoundTripIff(store: Store, key: string, nodeId: string)
    requires KeysWithoutSpace(store) && ',' !in nodeId
    ensures (forall vs | GoodValues(vs) :: Exchange(store, key, vs, nodeId) == Found(vs)) <==> GoodKey(key)
  {
    if GoodKey(key) {
      forall vs | GoodValues(vs) ensures Exchange(store, key, vs, nodeId) == Found(vs) {
        PutParses(key, vs);
        RoundTripIff(key, vs, nodeId);
      }
    } else {
      var vs, us := ["0"], ["1"];
      assert GoodValues(vs) && GoodValues(us);
      BadKeyFails(store, key, vs, us, nodeId);
    }
  }

  lemma BadKeyFails(store: Store, key: string, vs: Values, us: Values, nodeId: string)
    requires KeysWithoutSpace(store) && ',' !in nodeId && !GoodKey(key) && GoodValues(vs) && GoodValues(us) && vs != us
    ensures Exchange(store, key, vs, nodeId) != Found(vs) || Exchange(store, key, us, nodeId) != Found(us)
  {
    if Contains(GetMessage(key), "PUT:") {
      AcknowledgementIsNoAnswer(nodeId);
    } else if ' ' in key {
      StoredKeysWithoutSpace(store, Payload(PutMessage(key, vs)));
    } else {
      PutParses(key, vs);
      PutParses(key, us);
      CommaKeyAnswers(key, Pieces(Spaced(vs), ' '), Pieces(Spaced(us), ' '), nodeId);
    }
  }

  /** A put at the primary, its replication, and a get at either node, for any key and values. */
  method PutThenGet(primary: StorageNode, replica: StorageNode, key: string, vs: Values, atReplica: bool)
    returns (answer: Answer)
    requires primary != replica
    modifies primary, replica
    ensures var node := if atReplica then replica else primary;
            answer == Exchange(old(node.store), key, vs, node.nodeId)
    ensures GoodKey(key) ==> (answer == Found(vs) <==> GoodValues(vs))
    ensures GoodKey(key) ==> primary.store == old(primary.store)[key := Pieces(Spaced(vs), ' ')]
    ensures GoodKey(key) ==> replica.store == old(replica.store)[key := Pieces(Spaced(vs), ' ')]
  {
    PutIsAPut(key, vs);
    ForwardedStoresTheSame(replica.store, Payload(PutMessage(key, vs)));
    GetParses(key);
    if GoodKey(key) {
      PutParses(key, vs);
      RoundTripIff(key, vs, if atReplica then replica.nodeId else primary.nodeId);
    }
    var text := SpacedOut(vs);
    var _, forward := primary.HandleClient("PUT:" + (key + (" " + text)));
    replica.HandleNode(forward.value);
    var node := if atReplica then replica else primary;
    var reply, _ := node.HandleClient("GET:" + key);
    answer := DecodeReply(reply.value);
  }
}
