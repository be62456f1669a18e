/*
 * Clients of the directory store that check, from the contracts alone,
 * three usage scenarios of the store.
 */
module Scenarios {
  import opened Messaging

  /** A second registration of a name fails and keeps the first password. */
  method DuplicateRegistration() {
    var app := new RealTimeMessagingApp();
    var first := app.RegisterUser("alice", "pw1");
    assert first;
    var second := app.RegisterUser("alice", "pw2");
    assert !second && |app.users| == 1;
    assert app.LoginUser("alice", "pw1");
    assert !app.LoginUser("alice", "pw2");
  }

  /** Autocompletion lists the registered names under a prefix and nothing else. */
  method AutocompleteByPrefix() {
    var app := new RealTimeMessagingApp();
    var ok := app.RegisterUser("alice", "pw1");
    ok := app.RegisterUser("alan", "pw2");
    var al := app.AutocompleteUsers("al");
    assert "alice" in al && "alan" in al;
    var ali := app.AutocompleteUsers("ali");
    assert "alice" in ali;
    assert !("ali" <= "alan") by {
      assert "alan"[2] != "ali"[2];
    }
    assert "alan" !in ali;
    var z := app.AutocompleteUsers("z");
    assert app.users.Keys == {"alice", "alan"};
    assert !("z" <= "alice") && !("z" <= "alan") by {
      assert "alice"[0] != "z"[0] && "alan"[0] != "z"[0];
    }
    assert z == [];
  }

  /** Sending to an unknown user fails; sending to a known one delivers one entry. */
  method SendAndReceive(timestamp: string) {
    var app := new RealTimeMessagingApp();
    var ok := app.RegisterUser("bob", "pw");
    assert app.ReceiveMessages("bob") == [NoNewMessages];
    var sent := app.SendMessage("alice", "carol", "hello", timestamp);
    assert !sent && app.messages == map[];
    sent := app.SendMessage("alice", "bob", "hello", timestamp);
    assert sent;
    assert app.ReceiveMessages("bob") == [FormatMessage("alice", timestamp, "hello")];
  }
}
