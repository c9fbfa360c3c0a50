/**
  Two requests of one browser: the first stores a success message and the
  session is written to a cookie; the second brings that session back, shows
  the message once and writes the session back without it.
 */
module Lifecycle {
  import opened Sessions
  import opened FlashMessages

  method SuccessMessageAcrossTwoRequests()
    returns (firstSave: SaveOutcome, stored: map<Key, Value>, shown: map<string, seq<string>>,
             secondSave: SaveOutcome, left: map<Key, Value>)
    ensures firstSave == Persisted(false)
    ensures stored == map[FlashKey := FlashTable(map["success" := ["Saved!"]])]
    ensures shown == map["success" := ["Saved!"]]
    ensures left == map[]
    ensures secondSave == Persisted(false)
  {
    // First request: no cookie, so the store hands out a new, empty session.
    var created := new Session(true, map[]);
    var d1 := ServeHTTP((req: Request, name: string) => Loaded(created), Request("/settings", None));
    var r1 := d1.request;
    AddFlash(r1, "success", "Saved!");
    stored := created.values;
    assert stored - {FlashKey} == map[];
    assert stored == map[FlashKey := FlashTable(map["success" := ["Saved!"]])];
    firstSave := Save(r1, false);

    // Second request: the store decodes the session saved above.
    var decoded := new Session(false, stored);
    var d2 := ServeHTTP((req: Request, name: string) => Loaded(decoded), Request("/", None));
    var r2 := d2.request;
    shown := Flash(r2);
    left := decoded.values;
    assert left == stored - {FlashKey};
    secondSave := Save(r2, false);
  }
}
