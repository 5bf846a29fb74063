/**
 * App\Core\Controller's two response envelopes. `time()` is the parameter
 * `now`; writing the status, the header and the encoded body, and `exit`,
 * are the I/O that `json` performs and are represented by the Response value.
 */
module Envelopes {
  import opened Wrappers
  import opened Json

  /** success: `success = true`, the message, the data and the time, status 200 unless given. */
  function Success(now: int, message: string, data: Value := Null, statusCode: int := 200): (r: Response)
    ensures r.status == statusCode
    ensures KeysOf(r.body) == ["success", "message", "data", "timestamp"]
    ensures Get(r.body, "success") == Some(Bool(true))
    ensures Get(r.body, "message") == Some(Str(message))
    ensures Get(r.body, "data") == Some(data)
    ensures Get(r.body, "timestamp") == Some(Int(now))
  {
    Response(statusCode, [("success", Bool(true)), ("message", Str(message)), ("data", data), ("timestamp", Int(now))])
  }

  /** error: `success = false`, the message, the errors and the time, status 400 unless given. */
  function Error(now: int, message: string, statusCode: int := 400, errors: Value := Null): (r: Response)
    ensures r.status == statusCode
    ensures KeysOf(r.body) == ["success", "message", "errors", "timestamp"]
    ensures Get(r.body, "success") == Some(Bool(false))
    ensures Get(r.body, "message") == Some(Str(message))
    ensures Get(r.body, "errors") == Some(errors)
    ensures Get(r.body, "timestamp") == Some(Int(now))
  {
    Response(statusCode, [("success", Bool(false)), ("message", Str(message)), ("errors", errors), ("timestamp", Int(now))])
  }

  /** Left to their defaults, success answers 200 and error 400. */
  lemma DefaultStatus(now: int, message: string)
    ensures Success(now, message).status == 200
    ensures Error(now, message).status == 400
    ensures Get(Success(now, message).body, "data") == Some(Null)
    ensures Get(Error(now, message).body, "errors") == Some(Null)
  {
  }

  /**
   * No envelope carries both `data` and `errors`, each has its keys once,
   * and the `success` flag tells the two apart.
   */
  lemma EnvelopesDisjoint(now: int, message: string, data: Value, errors: Value, s: int, e: int)
    ensures var ok := Success(now, message, data, s).body;
      && "data" in KeysOf(ok) && "errors" !in KeysOf(ok) && DistinctKeys(ok)
    ensures var bad := Error(now, message, e, errors).body;
      && "errors" in KeysOf(bad) && "data" !in KeysOf(bad) && DistinctKeys(bad)
    ensures Success(now, message, data, s) != Error(now, message, e, errors)
  {
    SuccessKeys(now, message, data, s);
    ErrorKeys(now, message, e, errors);
    assert Success(now, message, data, s).body[0] != Error(now, message, e, errors).body[0];
  }

  lemma SuccessKeys(now: int, message: string, data: Value, s: int)
    ensures var ok := Success(now, message, data, s).body;
      && "data" in KeysOf(ok) && "errors" !in KeysOf(ok) && DistinctKeys(ok)
  {
    var ok := Success(now, message, data, s).body;
    assert KeysOf(ok)[2] == "data";
    DistinctFour("success", "message", "data", "timestamp");
    assert |"errors"| == 6;
  }

  lemma ErrorKeys(now: int, message: string, e: int, errors: Value)
    ensures var bad := Error(now, message, e, errors).body;
      && "errors" in KeysOf(bad) && "data" !in KeysOf(bad) && DistinctKeys(bad)
  {
    var bad := Error(now, message, e, errors).body;
    assert KeysOf(bad)[2] == "errors";
    DistinctFour("success", "message", "errors", "timestamp");
    assert |"data"| == 4;
  }

  // Four keys that differ pairwise make an array with distinct keys.
  lemma DistinctFour(a: string, b: string, c: string, d: string)
    requires a != b && a != c && a != d && b != c && b != d && c != d
    ensures forall f: Fields :: KeysOf(f) == [a, b, c, d] ==> DistinctKeys(f)
  {
    forall f: Fields | KeysOf(f) == [a, b, c, d] ensures DistinctKeys(f) {
      var ks := KeysOf(f);
      forall i, j | 0 <= i < j < |f| ensures f[i].0 != f[j].0 {
        assert f[i].0 == ks[i] && f[j].0 == ks[j];
      }
    }
  }
}
