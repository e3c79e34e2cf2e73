/** The zone tables the system's variants carry: each zone's name and its label
    alphabet, in the order the source lists them (the order decides which zone wins
    when two share a hall character and a label). */
module Zones {
  import opened SpaceCode

  /** The area list of the modular web app's configuration (webapp/js/config.js). */
  const AreasTable: ZoneTable := [
    ("東456", "アイウエオカキクケコサシスセソタチツテトナニヌネノハヒフヘホマミムメモヤユヨ"),
    ("東7", "ABCDEFGHIJKLMNOPQRSTUVWXYZ"),
    ("西12", "あいうえおかきくけこさしすせそたちつてとなにぬねのはひふへほまみむめ"),
    ("南12", "abcdefghijklmnopqrstuvwxyz")
  ]

  /** The all-in-one web app's table (webapp/app.js): 東7 stops at W and 南12 at t. */
  const WebAppTable: ZoneTable := [
    ("東456", "アイウエオカキクケコサシスセソタチツテトナニヌネノハヒフヘホマミムメモヤユヨ"),
    ("東7", "ABCDEFGHIJKLMNOPQRSTUVW"),
    ("西12", "あいうえおかきくけこさしすせそたちつてとなにぬねのはひふへほまみむめ"),
    ("南12", "abcdefghijklmnopqrst")
  ]

  /** The offline page's table (offline/app.js), the same cut-down alphabets. */
  const OfflineTable: ZoneTable := [
    ("東456", "アイウエオカキクケコサシスセソタチツテトナニヌネノハヒフヘホマミムメモヤユヨ"),
    ("東7", "ABCDEFGHIJKLMNOPQRSTUVW"),
    ("西12", "あいうえおかきくけこさしすせそたちつてとなにぬねのはひふへほまみむめ"),
    ("南12", "abcdefghijklmnopqrst")
  ]

  /** The watch companion's table (pebble/src/pkjs/index.js), full alphabets. */
  const PebbleTable: ZoneTable := [
    ("東456", "アイウエオカキクケコサシスセソタチツテトナニヌネノハヒフヘホマミムメモヤユヨ"),
    ("東7", "ABCDEFGHIJKLMNOPQRSTUVWXYZ"),
    ("西12", "あいうえおかきくけこさしすせそたちつてとなにぬねのはひふへほまみむめ"),
    ("南12", "abcdefghijklmnopqrstuvwxyz")
  ]
}
