/** Schema bootstrap (src/_migrations.py): the table-creating script and the
    insert-if-absent of the default account. */
module Migrations {
  import opened Configuration
  import opened Tables

  /** The account table after `setup_default_account`: unchanged when the option is off
      or the default account exists; otherwise it gains exactly that account. */
  function WithDefaultAccount(cfg: Config, accounts: map<AccountId, string>): (r: map<AccountId, string>)
    ensures !cfg.createDefaultAccount || DefaultAccountId in accounts ==> r == accounts
    ensures cfg.createDefaultAccount ==> r.Keys == accounts.Keys + {DefaultAccountId}
    ensures cfg.createDefaultAccount && DefaultAccountId !in accounts ==>
              r[DefaultAccountId] == DefaultAccountHash
    ensures forall a :: a in accounts ==> a in r && r[a] == accounts[a]
  {
    if !cfg.createDefaultAccount then accounts
    else if DefaultAccountId in accounts then accounts
    else accounts[DefaultAccountId := DefaultAccountHash]
  }

  /** Seeding twice is seeding once. */
  lemma DefaultAccountIdempotent(cfg: Config, accounts: map<AccountId, string>)
    ensures WithDefaultAccount(cfg, WithDefaultAccount(cfg, accounts)) == WithDefaultAccount(cfg, accounts)
  {
  }

  /** Seeding never breaks the image rows' references. */
  lemma DefaultAccountKeepsForeignKeys(cfg: Config, accounts: map<AccountId, string>, images: map<ImageId, Image>)
    requires ForeignKeysHold(accounts, images)
    ensures ForeignKeysHold(WithDefaultAccount(cfg, accounts), images)
  {
  }

  /** `setup_tables`: switch foreign keys on and create each table unless it exists;
      no existing row is touched, so running it again changes nothing. */
  method SetupTables(db: Connection)
    modifies db
    ensures db.foreignKeys
    ensures db.tables == old(db.tables) + SchemaTables
    ensures db.accounts == old(db.accounts) && db.images == old(db.images)
  {
    db.foreignKeys := true;
    db.tables := db.tables + SchemaTables;
  }

  /** `setup_default_account`: insert the default account when the option is on and the
      account is missing. */
  method SetupDefaultAccount(cfg: Config, db: Connection)
    modifies db
    ensures db.accounts == WithDefaultAccount(cfg, old(db.accounts))
    ensures db.tables == old(db.tables) && db.images == old(db.images)
    ensures db.foreignKeys == old(db.foreignKeys)
  {
    if !cfg.createDefaultAccount {
      return;
    }
    if DefaultAccountId !in db.accounts {
      db.accounts := db.accounts[DefaultAccountId := DefaultAccountHash];
    }
  }
}
