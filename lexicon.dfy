/**
 * The constant tables of the backend's language service
 * (`backend/src/services/translator.rs`): the two marker lists that vote
 * for Hindi or Marathi, and the two term dictionaries, each as its entries
 * in insertion order.
 */
module Lexicon {

  /** Common Hindi words whose presence votes for Hindi. */
  const HindiMarkers: seq<string> := [
    "क्या", "है", "में", "को", "की", "का", "और", "से", "पर",
    "कैसे", "खेती", "फसल", "मंडी", "किसान", "बारिश", "मिट्टी", "कीट", "रोग",
    "आज", "कल", "अभी", "कितना", "कौन", "कहाँ", "भाव", "पानी"
  ]

  /** Common Marathi words whose presence votes for Marathi. */
  const MarathiMarkers: seq<string> := [
    "काय", "आहे", "मध्ये", "ला", "ची", "चा", "आणि", "वर", "कसा",
    "शेती", "पीक", "बाजार", "शेतकरी", "पाऊस", "माती", "कीड", "रोग", "आज",
    "उद्या", "आता", "किती", "कोण", "कुठे", "भाव"
  ]

  /** The Hindi-to-English dictionary, entries in insertion order; no key repeats. */
  const HindiToEnglish: seq<(string, string)> := [
    ("गेहूं", "wheat"), ("धान", "rice/paddy"), ("टमाटर", "tomato"), ("प्याज", "onion"),
    ("आलू", "potato"), ("मंडी", "market/mandi"), ("भाव", "price"), ("खेती", "farming"),
    ("फसल", "crop"), ("किसान", "farmer"), ("बारिश", "rain"), ("पानी", "water"),
    ("सिंचाई", "irrigation"), ("कीट", "pest"), ("रोग", "disease"), ("मिट्टी", "soil"),
    ("खाद", "fertilizer"), ("बीज", "seed"), ("हंगाम", "season")
  ]

  /** The English-to-Hindi dictionary, entries in insertion order; no key repeats. */
  const EnglishToHindi: seq<(string, string)> := [
    ("wheat", "गेहूं"), ("rice", "धान"), ("paddy", "धान"), ("tomato", "टमाटर"),
    ("onion", "प्याज"), ("potato", "आलू"), ("market", "मंडी"), ("mandi", "मंडी"),
    ("price", "भाव/दाम"), ("farming", "खेती"), ("crop", "फसल"), ("farmer", "किसान"),
    ("rain", "बारिश"), ("water", "पानी"), ("irrigation", "सिंचाई"), ("pest", "कीट"),
    ("disease", "रोग"), ("soil", "मिट्टी"), ("fertilizer", "खाद"), ("seed", "बीज"),
    ("season", "मौसम")
  ]
}
