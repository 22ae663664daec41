/** A client of the model: the login, status and logout exchange of a seeded
    administrator, checked against the contracts alone. */
module Scenario {
  import opened Types
  import opened Store
  import opened Http
  import Auth
  import LoginRoute
  import MeRoute

  method LoginStatusLogout(now: Timestamp)
  {
    var newId := "s1";
    var alice := AdminUser("u1", "a@b.com", "secret", None, None, 0);
    var db := new Database(map["u1" := alice]);
    assert Auth.CredentialMatches(db, "a@b.com", "secret") == {"u1"};

    var denied := LoginRoute.Post(db, Some(LoginRoute.LoginRequest(Some("a@b.com"), Some("wrong"))),
                                  now, newId, NoFault, NoFault, false);
    assert Auth.CredentialMatches(db, "a@b.com", "wrong") == {};
    assert denied.status == 401 && db.sessions == map[];

    var noCookie := MeRoute.Get(db, now, None, NoFault);
    assert noCookie.status == 401;

    var granted := LoginRoute.Post(db, Some(LoginRoute.LoginRequest(Some("a@b.com"), Some("secret"))),
                                   now, newId, NoFault, NoFault, false);
    assert granted.status == 200 && granted.cookie.value == newId;

    var me := MeRoute.Get(db, now, Some(newId), NoFault);
    assert me.status == 200;

    var bye := LoginRoute.Delete(db, Some(newId), NoFault, false);
    me := MeRoute.Get(db, now, Some(newId), NoFault);
    assert me.status == 401;
  }
}
