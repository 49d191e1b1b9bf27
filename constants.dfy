/** The merchant catalogue the transaction form suggests from. */
module Constants {
  import opened Types

  const FrenchMerchants: seq<Merchant> := [
    // Supermarkets
    Merchant("m1", "Carrefour", Groceries),
    Merchant("m2", "E.Leclerc", Groceries),
    Merchant("m3", "Intermarch\U{221A}\U{A9}", Groceries),
    Merchant("m4", "Lidl", Groceries),
    Merchant("m5", "Auchan", Groceries),
    Merchant("m6", "Monoprix", Groceries),
    Merchant("m7", "Franprix", Groceries),
    Merchant("m8", "Picard", Groceries),
    // Transport
    Merchant("m9", "RATP", Transport),
    Merchant("m10", "SNCF", Transport),
    Merchant("m11", "TotalEnergies", Transport),
    Merchant("m12", "Uber", Transport),
    Merchant("m13", "Blablacar", Transport),
    // Utilities and telecom
    Merchant("m14", "EDF", Utilities),
    Merchant("m15", "Engie", Utilities),
    Merchant("m16", "Orange", Utilities),
    Merchant("m17", "Free", Utilities),
    Merchant("m18", "SFR", Utilities),
    Merchant("m19", "Bouygues Telecom", Utilities),
    Merchant("m20", "Veolia", Utilities),
    // Shopping and retail
    Merchant("m21", "Amazon FR", Shopping),
    Merchant("m22", "Fnac", Shopping),
    Merchant("m23", "Darty", Shopping),
    Merchant("m24", "Decathlon", Shopping),
    Merchant("m25", "Leroy Merlin", Housing),
    Merchant("m26", "Castorama", Housing),
    Merchant("m27", "IKEA", Housing),
    Merchant("m28", "Zara", Shopping),
    Merchant("m29", "H&M", Shopping),
    Merchant("m30", "Sephora", Health),
    // Food
    Merchant("m31", "Deliveroo", Restaurant),
    Merchant("m32", "Uber Eats", Restaurant),
    Merchant("m33", "McDonald's", Restaurant),
    Merchant("m34", "Burger King", Restaurant),
    // Services
    Merchant("m35", "Doctolib", Health),
    Merchant("m36", "La Poste", Other)
  ]
}
