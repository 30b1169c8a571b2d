includes = ["**/*.dfy"]

[options]
resource-limit = "2000000"
verification-time-limit = 0
